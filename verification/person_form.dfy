/**
 * `Person.create_from_form`: how the flat form parameters are split, how
 * the gender is normalised, which birthdate rule is chosen, and which
 * name, address, attribute, patient and identifier records are created.
 * The records themselves are written by the database layer; here they are
 * listed in the order the source creates them.
 */
module PersonForm {
  import opened Values
  import opened Calendar
  import opened People

  /** The nested `patient` parameter. */
  datatype PatientParams = PatientParams(identifiers: Option<seq<(string, Field)>>)

  /** The form: its scalar parameters and its three nested ones. */
  datatype Form = Form(
    fields: map<string, Field>,
    names: Option<map<string, Field>>,
    addresses: Option<map<string, Field>>,
    patient: Option<PatientParams>)

  /** What the caller supplies: the date and clock, and the registered
      attribute and identifier type names. */
  datatype Context = Context(
    today: Date,
    sessionDate: Option<Date>,
    now: Date,
    attributeTypes: set<string>,
    identifierTypes: set<string>)

  datatype Record =
    | NameRecord(nameParams: Option<map<string, Field>>)
    | AddressRecord(addressParams: map<string, Field>)
    | AttributeRecord(typeName: string, value: Field)
    | PatientRecord
    | IdentifierRecord(typeName: string, value: Field)

  datatype Created = Created(person: Person, records: seq<Record>)

  datatype FormError =
    | BirthdateFailed(cause: BirthError)
    | NoIdentifierType   // neither the named type nor "Unknown id" is registered

  /** `params[key]`: nil when the key is absent. */
  function Param(form: Form, key: string): Field {
    if key in form.fields then form.fields[key] else Nil
  }

  /** `key.match(/pat/)` for a pattern of plain characters. */
  predicate Contains(s: string, pat: string) {
    exists i :: 0 <= i <= |s| - |pat| && OccursAt(s, pat, i)
  }

  /** `pat` occurs in `s` starting at position `i`. */
  predicate OccursAt(s: string, pat: string, i: int) {
    0 <= i <= |s| - |pat| && s[i..i + |pat|] == pat
  }

  predicate MatchesAny(key: string, pats: seq<string>) {
    exists i :: 0 <= i < |pats| && Contains(key, pats[i])
  }

  /** Keys set aside before anything else is read from the form. */
  const SeparateKeys: seq<string> := ["addresses", "patient", "names", "relation",
    "cell_phone_number", "home_phone_number", "office_phone_number",
    "agrees_to_be_visited_for_TB_therapy", "agrees_phone_text_for_TB_therapy"]

  /** Keys that are not columns of the person record. */
  const NonPersonKeys: seq<string> := ["birth_", "age_estimate", "occupation"]

  /** `birthday_params`. */
  function BirthdayParams(form: Form): (r: map<string, Field>)
    ensures forall k :: k in r ==> k in form.fields && r[k] == form.fields[k]
    ensures forall k :: k in r ==> !MatchesAny(k, SeparateKeys) && !Contains(k, "gender")
    ensures forall k :: k in form.fields && !MatchesAny(k, SeparateKeys) && !Contains(k, "gender") ==> k in r
  {
    map k | k in form.fields && !MatchesAny(k, SeparateKeys) && !Contains(k, "gender") :: form.fields[k]
  }

  /** `person_params`. */
  function PersonParams(form: Form): (r: map<string, Field>)
    ensures forall k :: k in r ==> k in form.fields && r[k] == form.fields[k]
    ensures forall k :: k in r ==> !MatchesAny(k, SeparateKeys) && !MatchesAny(k, NonPersonKeys)
    ensures forall k :: k in form.fields && !MatchesAny(k, SeparateKeys) && !MatchesAny(k, NonPersonKeys) ==> k in r
  {
    map k | k in form.fields && !MatchesAny(k, SeparateKeys) && !MatchesAny(k, NonPersonKeys) :: form.fields[k]
  }

  function Lookup(m: map<string, Field>, key: string): Field {
    if key in m then m[key] else Nil
  }

  /** A pattern with a character the key lacks does not occur in it. */
  lemma MissingChar(s: string, pat: string, c: char)
    requires c in pat && c !in s
    ensures !Contains(s, pat)
  {
    forall i | 0 <= i <= |s| - |pat| ensures !OccursAt(s, pat, i) {
      var k :| 0 <= k < |pat| && pat[k] == c;
      assert s[i + k] != c;
      assert s[i..i + |pat|][k] == s[i + k];
    }
  }

  /** No pattern of `pats` occurs in `key`: each is longer than `key`, or
      `cs[i]` is a character of `pats[i]` that `key` lacks. */
  lemma NoneMatch(key: string, pats: seq<string>, cs: seq<char>)
    requires |cs| == |pats|
    requires forall i :: 0 <= i < |pats| ==> |pats[i]| > |key| || (cs[i] in pats[i] && cs[i] !in key)
    ensures !MatchesAny(key, pats)
  {
    forall i | 0 <= i < |pats| ensures !Contains(key, pats[i]) {
      if |pats[i]| <= |key| {
        MissingChar(key, pats[i], cs[i]);
      }
    }
  }

  lemma BirthdayKeeps(form: Form, key: string)
    requires !MatchesAny(key, SeparateKeys) && !Contains(key, "gender")
    ensures Lookup(BirthdayParams(form), key) == Param(form, key)
  {
  }

  lemma PersonKeeps(form: Form, key: string)
    requires !MatchesAny(key, SeparateKeys) && !MatchesAny(key, NonPersonKeys)
    ensures Lookup(PersonParams(form), key) == Param(form, key)
  {
  }

  /** The birth, age and gender parameters survive the key filters they
      are meant to survive. */
  lemma FormKeysKept(form: Form)
    ensures Lookup(PersonParams(form), "gender") == Param(form, "gender")
    ensures Lookup(BirthdayParams(form), "birth_year") == Param(form, "birth_year")
    ensures Lookup(BirthdayParams(form), "birth_month") == Param(form, "birth_month")
    ensures Lookup(BirthdayParams(form), "birth_day") == Param(form, "birth_day")
    ensures Lookup(BirthdayParams(form), "age_estimate") == Param(form, "age_estimate")
  {
    GenderKept();
    PersonKeeps(form, "gender");
    BirthYearKept(form);
    BirthMonthKept(form);
    BirthDayKept(form);
    AgeEstimateKept(form);
  }

  // One call of `BirthdayKeyKept` per key, each a proof obligation of its
  // own: the letter checks on the literal keys are costly to the solver.
  // Each witness string lists, key by key, a letter of "addresses",
  // "patient", "names" and "relation" that the parameter name lacks; the
  // other five separate keys are longer than any birthday parameter name,
  // so their witness letters are never consulted.

  lemma BirthYearKept(form: Form)
    ensures Lookup(BirthdayParams(form), "birth_year") == Param(form, "birth_year")
  {
    BirthdayKeyKept(form, "birth_year", "dpnl_____", 'g');
  }

  lemma BirthMonthKept(form: Form)
    ensures Lookup(BirthdayParams(form), "birth_month") == Param(form, "birth_month")
  {
    BirthdayKeyKept(form, "birth_month", "dpal_____", 'g');
  }

  lemma BirthDayKept(form: Form)
    ensures Lookup(BirthdayParams(form), "birth_day") == Param(form, "birth_day")
  {
    BirthdayKeyKept(form, "birth_day", "epnl_____", 'g');
  }

  lemma AgeEstimateKept(form: Form)
    ensures Lookup(BirthdayParams(form), "age_estimate") == Param(form, "age_estimate")
  {
    BirthdayKeyKept(form, "age_estimate", "dpnr_____", 'n');
  }

  /** "gender" survives both person filters: "names" and "birth_" are the
      only keys no longer than it, and it lacks their letters 'a' and 'b'. */
  lemma GenderKept()
    ensures !MatchesAny("gender", SeparateKeys) && !MatchesAny("gender", NonPersonKeys)
  {
    NoneMatch("gender", SeparateKeys, "__a______");
    NoneMatch("gender", NonPersonKeys, "b__");
  }

  /** A key survives the `birthday_params` filter when every separate key is
      either longer than it or has a letter `cs[i]` that it lacks, and `c`
      is a letter of "gender" that it lacks. */
  lemma BirthdayKeyKept(form: Form, key: string, cs: string, c: char)
    requires |cs| == |SeparateKeys|
    requires forall i :: 0 <= i < |SeparateKeys| ==>
      |SeparateKeys[i]| > |key| || (cs[i] in SeparateKeys[i] && cs[i] !in key)
    requires c in "gender" && c !in key
    ensures Lookup(BirthdayParams(form), key) == Param(form, key)
  {
    NoneMatch(key, SeparateKeys, cs);
    MissingChar(key, "gender", c);
    BirthdayKeeps(form, key);
  }

  /** The reference date of an age estimate: the session date, or today. */
  function ReferenceDate(ctx: Context): (r: Date)
    ensures ctx.sessionDate.Some? ==> r == ctx.sessionDate.value
    ensures ctx.sessionDate.None? ==> r == ctx.today
  {
    if ctx.sessionDate.Some? then ctx.sessionDate.value else ctx.today
  }

  /** A birthdate that `set_birthdate` may have set. */
  function Optional(b: Result<Birthdate, BirthError>): Result<Option<Birthdate>, BirthError> {
    match b
    case Err(e) => Err(e)
    case Ok(d) => Ok(Some(d))
  }

  /** The birthdate of `create_from_form`: none when no birthday parameter
      is present, from the age estimate when the year is "Unknown", and
      from `set_birthdate` otherwise. */
  function FormBirthdate(form: Form, ctx: Context): (r: Result<Option<Birthdate>, BirthError>)
    ensures BirthdayParams(form) == map[] ==> r == Ok(None)
    ensures BirthdayParams(form) != map[] && Param(form, "birth_year") == Text("Unknown") ==>
      r == Ok(Some(Birthdate(Date(ReferenceDate(ctx).year - ToI(Param(form, "age_estimate")), 7, 1), true)))
    ensures BirthdayParams(form) != map[] && Param(form, "birth_year") != Text("Unknown") ==>
      r == Optional(SetBirthdate(Param(form, "birth_year"), Param(form, "birth_month"), Param(form, "birth_day")))
  {
    var params := BirthdayParams(form);
    if params == map[] then Ok(None)
    else
      // The source reads the four keys from `params`; the filter keeps
      // them with the form's values (`FormKeysKept`), so they are read
      // from the form here.
      var year := Param(form, "birth_year");
      if year == Text("Unknown") then
        Ok(Some(SetBirthdateByAge(Param(form, "age_estimate"), ReferenceDate(ctx))))
      else
        Optional(SetBirthdate(year, Param(form, "birth_month"), Param(form, "birth_day")))
  }

  /** A form whose year is "Unknown" estimates the birthdate from
      `age_estimate`: 1 July, that many years before the session date or
      today. */
  lemma FormAgeEstimate(form: Form, ctx: Context)
    requires Param(form, "birth_year") == Text("Unknown")
    ensures FormBirthdate(form, ctx)
      == Ok(Some(Birthdate(Date(ReferenceDate(ctx).year - ToI(Param(form, "age_estimate")), 7, 1), true)))
  {
    BirthYearKept(form);
    assert "birth_year" in BirthdayParams(form);
  }

  /** The four attribute parameters and the attribute type each is filed under. */
  const AttributeSlots: seq<(string, string)> := [
    ("occupation", "Occupation"),
    ("cell_phone_number", "Cell Phone Number"),
    ("office_phone_number", "Office Phone Number"),
    ("home_phone_number", "Home Phone Number")]

  /** An attribute is created when its parameter is not blank and its type
      is registered; a missing type fails inside `rescue nil` and is skipped. */
  function AttributeRecords(form: Form, types: set<string>, slots: seq<(string, string)>): (rs: seq<Record>)
    ensures forall r :: r in rs ==> r.AttributeRecord?
    ensures forall t, v :: AttributeRecord(t, v) in rs <==> AttributeGiven(form, types, slots, t, v)
  {
    if |slots| == 0 then []
    else
      var (key, typeName) := slots[0];
      var here := if !Blank(Param(form, key)) && typeName in types
        then [AttributeRecord(typeName, Param(form, key))] else [];
      assert forall x :: x in slots <==> x == slots[0] || x in slots[1..] by {
        assert slots == [slots[0]] + slots[1..];
      }
      here + AttributeRecords(form, types, slots[1..])
  }

  /** Some slot names type `t`, which is registered, and holds the
      non-blank value `v`. */
  predicate AttributeGiven(form: Form, types: set<string>, slots: seq<(string, string)>, t: string, v: Field) {
    exists slot :: slot in slots && slot.1 == t && t in types && !Blank(Param(form, slot.0)) && v == Param(form, slot.0)
  }

  /** The slot's parameter is not blank and its type is registered. */
  predicate SlotFilled(form: Form, types: set<string>, slot: (string, string)) {
    !Blank(Param(form, slot.0)) && slot.1 in types
  }

  /** The slots that produce an attribute record, in order. */
  function FilledSlots(form: Form, types: set<string>, slots: seq<(string, string)>): seq<(string, string)> {
    Filter(slots, s => SlotFilled(form, types, s))
  }

  /** `rec` is the record of attribute slot `slot`: its type and its
      parameter's value. */
  predicate SlotRecord(form: Form, slot: (string, string), rec: Record) {
    rec == AttributeRecord(slot.1, Param(form, slot.0))
  }

  /** Exactly one attribute record per filled slot, in slot order, carrying
      the slot's type and its parameter's value. */
  lemma {:induction false} AttributeRecordsInOrder(form: Form, types: set<string>, slots: seq<(string, string)>)
    ensures var rs := AttributeRecords(form, types, slots);
      var filled := FilledSlots(form, types, slots);
      |rs| == |filled| && forall j :: 0 <= j < |rs| ==> SlotRecord(form, filled[j], rs[j])
  {
    if |slots| > 0 {
      var rest := AttributeRecords(form, types, slots[1..]);
      var tail := FilledSlots(form, types, slots[1..]);
      AttributeRecordsInOrder(form, types, slots[1..]);
      if SlotFilled(form, types, slots[0]) {
        var x := AttributeRecord(slots[0].1, Param(form, slots[0].0));
        assert FilledSlots(form, types, slots) == [slots[0]] + tail;
        assert AttributeRecords(form, types, slots) == [x] + rest;
        PairedCons((slot, rec) => SlotRecord(form, slot, rec), slots[0], x, tail, rest);
      } else {
        assert FilledSlots(form, types, slots) == tail;
        assert AttributeRecords(form, types, slots) == rest;
      }
    }
  }

  /** An identifier whose value is not blank. */
  predicate GivenId(p: (string, Field)) {
    !Blank(p.1)
  }

  /** `rec` is the record of identifier `p`: filed under its type. */
  predicate FiledAs(types: set<string>, p: (string, Field), rec: Record) {
    IdentifierType(p.0, types).Some? && rec == IdentifierRecord(IdentifierType(p.0, types).value, p.1)
  }

  /** On success, exactly one identifier record per non-blank identifier,
      in the order given, filed under that identifier's type. */
  lemma {:induction false} IdentifierRecordsInOrder(ids: seq<(string, Field)>, types: set<string>)
    requires IdentifierRecords(ids, types).Ok?
    ensures var rs := IdentifierRecords(ids, types).value;
      var given := Filter(ids, GivenId);
      |rs| == |given| && forall j :: 0 <= j < |rs| ==> FiledAs(types, given[j], rs[j])
  {
    if |ids| > 0 {
      var rest := IdentifierRecords(ids[1..], types);
      assert rest.Ok?;
      var tail := Filter(ids[1..], GivenId);
      IdentifierRecordsInOrder(ids[1..], types);
      if GivenId(ids[0]) {
        var t := IdentifierType(ids[0].0, types);
        assert t.Some?;
        var x := IdentifierRecord(t.value, ids[0].1);
        assert Filter(ids, GivenId) == [ids[0]] + tail;
        assert IdentifierRecords(ids, types) == Ok([x] + rest.value);
        PairedCons((p, rec) => FiledAs(types, p, rec), ids[0], x, tail, rest.value);
      } else {
        assert Filter(ids, GivenId) == tail;
        assert IdentifierRecords(ids, types) == rest;
      }
    }
  }

  /** The identifier type an identifier is filed under: its own name when
      registered, else "Unknown id"; none when neither is registered. */
  function IdentifierType(name: string, types: set<string>): (r: Option<string>)
    ensures r.Some? ==> r.value in types
    ensures r.None? <==> name !in types && "Unknown id" !in types
    ensures name in types ==> r == Some(name)
    ensures name !in types && "Unknown id" in types ==> r == Some("Unknown id")
  {
    if name in types then Some(name)
    else if "Unknown id" in types then Some("Unknown id")
    else None
  }

  /** One identifier record per non-blank identifier, in the order given;
      the first identifier with no type to file it under aborts. */
  function IdentifierRecords(ids: seq<(string, Field)>, types: set<string>): (r: Result<seq<Record>, FormError>)
    ensures r.Err? <==> exists p :: p in ids && !Blank(p.1) && IdentifierType(p.0, types).None?
    ensures r.Ok? ==> forall x :: x in r.value <==>
      exists p :: p in ids && !Blank(p.1) && x == IdentifierRecord(IdentifierType(p.0, types).value, p.1)
  {
    if |ids| == 0 then Ok([])
    else
      var (name, value) := ids[0];
      assert forall p :: p in ids <==> p == ids[0] || p in ids[1..] by {
        assert ids == [ids[0]] + ids[1..];
      }
      var rest := IdentifierRecords(ids[1..], types);
      if Blank(value) then rest
      else match IdentifierType(name, types)
        case None => Err(NoIdentifierType)
        case Some(t) =>
          match rest
          case Err(e) => Err(e)
          case Ok(rs) => Ok([IdentifierRecord(t, value)] + rs)
  }

  /** The patient record and its identifiers, when the form has a
      `patient` parameter. */
  function PatientRecords(form: Form, types: set<string>): (r: Result<seq<Record>, FormError>)
    ensures form.patient.None? ==> r == Ok([])
    ensures form.patient.Some? && r.Ok? ==> |r.value| > 0 && r.value[0] == PatientRecord
    ensures r.Ok? ==> forall x :: x in r.value ==> x.PatientRecord? || x.IdentifierRecord?
    ensures r.Err? ==> form.patient.Some? && form.patient.value.identifiers.Some?
    ensures form.patient.Some? && form.patient.value.identifiers.None? ==> r == Ok([PatientRecord])
    ensures form.patient.Some? && form.patient.value.identifiers.Some? ==>
      var ids := IdentifierRecords(form.patient.value.identifiers.value, types);
      (r.Err? <==> ids.Err?) && (r.Ok? ==> r.value == [PatientRecord] + ids.value)
  {
    match form.patient
    case None => Ok([])
    case Some(p) =>
      match p.identifiers
      case None => Ok([PatientRecord])
      case Some(ids) =>
        match IdentifierRecords(ids, types)
        case Err(e) => Err(e)
        case Ok(rs) => Ok([PatientRecord] + rs)
  }

  /** The address record, unless the `addresses` parameter is missing or empty. */
  function AddressRecords(form: Form): (rs: seq<Record>)
    ensures |rs| <= 1
    ensures |rs| == 1 <==> form.addresses.Some? && form.addresses.value != map[]
    ensures |rs| == 1 ==> rs[0] == AddressRecord(form.addresses.value)
  {
    if form.addresses.Some? && form.addresses.value != map[]
    then [AddressRecord(form.addresses.value)] else []
  }

  /** `create_from_form(params)`: the person, and the records created for
      it, in the order they are created. */
  function CreateFromForm(form: Form, ctx: Context): (r: Result<Created, FormError>)
    ensures r.Ok? ==> r.value.person.gender == StoredGender(NormalizeGender(Param(form, "gender")))
    ensures r.Ok? ==> Ok(r.value.person.birth) == FormBirthdate(form, ctx)
    ensures FormBirthdate(form, ctx).Err? ==> r == Err(BirthdateFailed(FormBirthdate(form, ctx).error))
    ensures r.Ok? ==> r.value.person.dateCreated == ctx.now
    ensures r.Ok? ==> PatientRecords(form, ctx.identifierTypes).Ok?
    ensures r.Ok? ==> (r.value.records ==
      [NameRecord(form.names)] + AddressRecords(form)
      + AttributeRecords(form, ctx.attributeTypes, AttributeSlots)
      + PatientRecords(form, ctx.identifierTypes).value)
    ensures r.Err? && r.error == NoIdentifierType ==> form.patient.Some?
    ensures r.Ok? <==> FormBirthdate(form, ctx).Ok? && PatientRecords(form, ctx.identifierTypes).Ok?
    ensures FormBirthdate(form, ctx).Ok? && PatientRecords(form, ctx.identifierTypes).Err? ==>
      r == Err(PatientRecords(form, ctx.identifierTypes).error)
  {
    FormKeysKept(form);
    var gender := StoredGender(NormalizeGender(Lookup(PersonParams(form), "gender")));
    match FormBirthdate(form, ctx)
    case Err(e) => Err(BirthdateFailed(e))
    case Ok(birth) =>
      var person := Person(gender, birth, ctx.now);
      var head := [NameRecord(form.names)] + AddressRecords(form)
        + AttributeRecords(form, ctx.attributeTypes, AttributeSlots);
      match PatientRecords(form, ctx.identifierTypes)
      case Err(e) => Err(e)
      case Ok(patient) => Ok(Created(person, head + patient))
  }

  /** A created person reads back, through `sex`, the gender word the form
      gave, whether the form spelt it out or used its code. */
  lemma CreatedSex(form: Form, ctx: Context)
    requires CreateFromForm(form, ctx).Ok?
    ensures var g := ToS(Param(form, "gender"));
      Sex(CreateFromForm(form, ctx).value.person.gender)
        == if g == "Male" || g == "M" then Some("Male")
           else if g == "Female" || g == "F" then Some("Female")
           else None
  {
    SexInvertsNormalize(Param(form, "gender"));
  }
}
