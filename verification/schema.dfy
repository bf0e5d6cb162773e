/** The appointment record schema (`AppointmentSchema`, `AnalysisSchema`)
    checked directly over parsed JSON values. */
module Schema {
  import opened Wrappers
  import opened Text

  /** A value `JSON.parse` can produce. An object keeps one value per key
      (for a repeated key the parser keeps the last one). */
  datatype JsonValue =
    | Null
    | Bool(b: bool)
    | Num(n: real)
    | Str(s: string)
    | Arr(items: seq<JsonValue>)
    | Obj(fields: map<string, JsonValue>)

  /** A validated record; `category` is the schema's `type` field. */
  datatype Appointment = Appointment(location: string, is29Country: bool, date: string, category: string)

  const LocationKey: string := "location"
  const Is29CountryKey: string := "is29Country"
  const DateKey: string := "date"
  const TypeKey: string := "type"

  /** The closed set of test centres. */
  const Locations: seq<string> := ["府中試験場", "鮫洲試験場", "江東試験場"]

  /** The closed set of applicant categories. */
  const Categories: seq<string> := [
    "29の国･地域以外の方で、住民票のある方",
    "29の国･地域以外の方で、住民票のない方",
    "29の国･地域の方"
  ]

  /** One position of an anchored regex made of single-character atoms. */
  datatype Atom = AnyDigit | Literal(c: char)

  /** `^\d{4}-\d{2}-\d{2}$` with its counted repetitions spelled out. */
  const DatePattern: seq<Atom> := [
    AnyDigit, AnyDigit, AnyDigit, AnyDigit, Literal('-'),
    AnyDigit, AnyDigit, Literal('-'),
    AnyDigit, AnyDigit
  ]

  predicate AtomMatches(a: Atom, c: char)
  {
    match a
    case AnyDigit => IsDigit(c)
    case Literal(x) => c == x
  }

  /** A pattern anchored at both ends matches, atom by atom. */
  predicate MatchesWhole(p: seq<Atom>, s: string)
  {
    if |p| == 0 then |s| == 0
    else |s| > 0 && AtomMatches(p[0], s[0]) && MatchesWhole(p[1..], s[1..])
  }

  /** `^\d{4}-\d{2}-\d{2}$`: exactly ten characters, four digits, a hyphen,
      two digits, a hyphen, two digits. There is no calendar check. */
  predicate IsDate(s: string)
    ensures IsDate(s) <==>
      && |s| == 10
      && IsDigit(s[0]) && IsDigit(s[1]) && IsDigit(s[2]) && IsDigit(s[3])
      && s[4] == '-'
      && IsDigit(s[5]) && IsDigit(s[6])
      && s[7] == '-'
      && IsDigit(s[8]) && IsDigit(s[9])
  {
    MatchesWholeLength(DatePattern, s);
    if |s| == 10 then
      MatchesWholeAt(DatePattern, s);
      MatchesWhole(DatePattern, s)
    else
      MatchesWhole(DatePattern, s)
  }

  lemma {:induction false} MatchesWholeLength(p: seq<Atom>, s: string)
    ensures MatchesWhole(p, s) ==> |s| == |p|
  {
    if |p| > 0 && |s| > 0 {
      MatchesWholeLength(p[1..], s[1..]);
    }
  }

  /** For equal lengths, a whole match is a match at every position. */
  lemma {:induction false} MatchesWholeAt(p: seq<Atom>, s: string)
    requires |p| == |s|
    ensures MatchesWhole(p, s) <==> forall i :: 0 <= i < |s| ==> AtomMatches(p[i], s[i])
  {
    if |p| > 0 {
      MatchesWholeAt(p[1..], s[1..]);
      assert forall i :: 1 <= i < |s| ==> p[1..][i - 1] == p[i] && s[1..][i - 1] == s[i];
    }
  }

  lemma DateWithoutCalendarCheck()
    ensures IsDate("2025-13-99")
  {
    var s := "2025-13-99";
    assert |s| == 10 && s[4] == '-' && s[7] == '-';
  }

  /** An unpadded month is rejected. */
  lemma DateNeedsPadding()
    ensures !IsDate("2025-5-23")
  {
  }

  /** The constraints the schema places on one record. */
  predicate WellFormed(a: Appointment)
  {
    a.location in Locations && IsDate(a.date) && a.category in Categories
  }

  /** `v` is an object carrying the record's four fields with the JSON types
      the schema demands; other keys may be present. */
  predicate Describes(v: JsonValue, a: Appointment)
  {
    && v.Obj?
    && LocationKey in v.fields && v.fields[LocationKey] == Str(a.location)
    && Is29CountryKey in v.fields && v.fields[Is29CountryKey] == Bool(a.is29Country)
    && DateKey in v.fields && v.fields[DateKey] == Str(a.date)
    && TypeKey in v.fields && v.fields[TypeKey] == Str(a.category)
  }

  function StringField(m: map<string, JsonValue>, key: string): Option<string>
  {
    if key in m && m[key].Str? then Some(m[key].s) else None
  }

  function BoolField(m: map<string, JsonValue>, key: string): Option<bool>
  {
    if key in m && m[key].Bool? then Some(m[key].b) else None
  }

  /** `AppointmentSchema.safeParse`: accepts an object whose `location` and
      `type` are listed strings, whose `is29Country` is a JSON boolean and
      whose `date` has the date shape, and returns those four values (extra
      keys are dropped). Anything else is rejected. */
  function ValidateAppointment(v: JsonValue): (r: Option<Appointment>)
    ensures r.Some? ==> WellFormed(r.value) && Describes(v, r.value)
    ensures forall a :: WellFormed(a) && Describes(v, a) ==> r == Some(a)
  {
    match v
    case Obj(m) =>
      (match (StringField(m, LocationKey), BoolField(m, Is29CountryKey), StringField(m, DateKey), StringField(m, TypeKey))
       case (Some(location), Some(is29), Some(date), Some(category)) =>
         if location in Locations && IsDate(date) && category in Categories
         then Some(Appointment(location, is29, date, category))
         else None
       case _ => None)
    case _ => None
  }

  /** The object a well-formed record is written as. */
  function ToJson(a: Appointment): JsonValue
  {
    Obj(map[LocationKey := Str(a.location), Is29CountryKey := Bool(a.is29Country),
            DateKey := Str(a.date), TypeKey := Str(a.category)])
  }

  /** Every well-formed record written as JSON validates back to itself. */
  lemma ValidateToJson(a: Appointment)
    requires WellFormed(a)
    ensures ValidateAppointment(ToJson(a)) == Some(a)
  {
    assert Describes(ToJson(a), a);
  }

  /** Unknown keys are ignored (zod objects strip them). */
  lemma ValidateIgnoresExtraKeys(m: map<string, JsonValue>, key: string, x: JsonValue)
    requires key !in {LocationKey, Is29CountryKey, DateKey, TypeKey}
    ensures ValidateAppointment(Obj(m[key := x])) == ValidateAppointment(Obj(m))
  {
    var m' := m[key := x];
    assert forall k :: k in {LocationKey, Is29CountryKey, DateKey, TypeKey} ==> (k in m' <==> k in m) && (k in m ==> m'[k] == m[k]);
  }

  /** Representative rejections: a non-object, a string "true" for the
      boolean, a location outside the list, a missing field. */
  lemma RejectedRecords(a: Appointment)
    requires WellFormed(a)
    ensures ValidateAppointment(Null).None?
    ensures ValidateAppointment(Arr([ToJson(a)])).None?
    ensures ValidateAppointment(Obj(ToJson(a).fields[Is29CountryKey := Str("true")])).None?
    ensures ValidateAppointment(Obj(ToJson(a).fields[LocationKey := Str("新宿")])).None?
    ensures ValidateAppointment(Obj(ToJson(a).fields - {DateKey})).None?
  {
  }

  /** `z.array(AppointmentSchema)` over the elements: all of them validate,
      or the whole batch is rejected. */
  function ValidateAll(items: seq<JsonValue>): (r: Option<seq<Appointment>>)
    ensures r.Some? <==> forall i :: 0 <= i < |items| ==> ValidateAppointment(items[i]).Some?
    ensures r.Some? ==> |r.value| == |items|
    ensures r.Some? ==> forall i :: 0 <= i < |items| ==> ValidateAppointment(items[i]) == Some(r.value[i])
  {
    if |items| == 0 then Some([])
    else
      match (ValidateAppointment(items[0]), ValidateAll(items[1..]))
      case (Some(a), Some(rest)) =>
        assert forall i :: 1 <= i < |items| ==> items[i] == items[1..][i - 1];
        Some([a] + rest)
      case (None, _) => None
      case (_, None) =>
        assert forall i :: 1 <= i < |items| ==> items[i] == items[1..][i - 1];
        None
  }

  /** `AnalysisSchema.safeParse`: the value must be an array, and then
      `ValidateAll` decides. */
  function ValidateAnalysis(v: JsonValue): (r: Option<seq<Appointment>>)
    ensures !v.Arr? ==> r.None?
    ensures v == Arr([]) ==> r == Some([])
    ensures r.Some? ==> |r.value| == |v.items|
    ensures r.Some? ==> forall i :: 0 <= i < |r.value| ==> WellFormed(r.value[i]) && Describes(v.items[i], r.value[i])
    ensures v.Arr? && (forall i :: 0 <= i < |v.items| ==> ValidateAppointment(v.items[i]).Some?) ==> r.Some?
    ensures v.Arr? && (exists i :: 0 <= i < |v.items| && ValidateAppointment(v.items[i]).None?) ==> r.None?
  {
    match v
    case Arr(items) => ValidateAll(items)
    case _ => None
  }
}
