/** Request validation as the controllers use it: each field of a request
    has a list of rules; validation either yields the validated fields (the
    fields with rules that the request carries) or the set of fields that
    failed. The HTTP outcome of a controller action is a Response. */
module Validation {
  import opened Wrappers
  import opened Text

  /** A request value: the shapes the rules distinguish. The encoding is per
      field: in a field whose rules include `date`, text that parses as a date
      is held as its day number (`VDate`) and any other text as `VStr`; in
      every other field text is always `VStr`, whatever it looks like. */
  datatype Value = VNull | VBool(b: bool) | VInt(i: int) | VStr(s: string) | VDate(day: int)

  datatype Rule =
    | Required
    | Nullable
    | IsString
    | MaxLength(n: nat)
    | IsBoolean
    | OneOf(names: set<string>)
    | IsDate
    | ExistsIn(ids: set<int>)

  type Input = map<string, Value>

  /** A field name with its rules, in the order the controller lists them. */
  type FieldRules = seq<(string, seq<Rule>)>

  /** What an action ends in: its result, a 404, a 403, or a 422 naming the
      failed fields. */
  datatype Response<+T> = Done(value: T) | NotFound | Forbidden | Invalid(errors: set<string>)

  /** The characters PHP's `trim` strips by default: space, tab, line feed,
      carriage return, NUL and vertical tab. */
  const TrimChars: set<char> := {' ', '\t', '\n', '\r', '\0', 11 as char}

  predicate IsSpace(c: char)
  {
    c in TrimChars
  }

  /** A string that is empty once trimmed. */
  predicate Blank(s: string)
  {
    forall i :: 0 <= i < |s| ==> IsSpace(s[i])
  }

  /** A string is blank exactly when `trim` leaves nothing of it. */
  lemma BlankIsTrimmedEmpty(s: string)
    ensures Blank(s) <==> Strip(s, TrimChars) == ""
  {
    StripMeaning(s, TrimChars);
  }

  /** The integer an `exists` rule looks up: an integer, or a non-empty
      string of decimal digits, which the database compares as the number
      it spells. */
  function IdValue(v: Value): Option<int>
  {
    match v
    case VInt(i) => Some(i)
    case VStr(s) => if |s| > 0 && AllDigits(s) then Some(ParseDigits(s)) else None
    case _ => None
  }

  /** An id sent as its decimal rendering names the same row as the integer. */
  lemma RenderedIdValue(n: nat)
    ensures IdValue(VStr(NatToString(n))) == IdValue(VInt(n)) == Some(n)
  {
    NatToStringRoundTrip(n);
  }

  /** The values the `boolean` rule accepts. */
  predicate BooleanLike(v: Value)
  {
    v == VBool(true) || v == VBool(false) || v == VInt(0) || v == VInt(1) || v == VStr("0") || v == VStr("1")
  }

  /** How a validated flag is read: PHP's truthiness, under which false, 0,
      "", "0" and null are false and every other value is true. A flag the
      `boolean` cast later reads back from the column is read the same way. */
  function AsBool(v: Value): bool
  {
    match v
    case VNull => false
    case VBool(b) => b
    case VInt(i) => i != 0
    case VStr(s) => s != "" && s != "0"
    case VDate(_) => true
  }

  /** On the six spellings the `boolean` rule names, the flag reads as the
      spelling says; a blank string that the rule lets through reads as true
      unless it is empty. */
  lemma AsBoolMeaning(v: Value)
    ensures BooleanLike(v) ==> (AsBool(v) <==> v == VBool(true) || v == VInt(1) || v == VStr("1"))
    ensures v.VStr? && Blank(v.s) ==> (AsBool(v) <==> |v.s| > 0)
  {
  }

  /** One rule other than `required` and `nullable` on a present value. */
  predicate RuleHolds(r: Rule, v: Value)
  {
    match r
    case Required => true
    case Nullable => true
    case IsString => v.VStr?
    case MaxLength(n) => (v.VStr? && |v.s| <= n) || (v.VInt? && |IntToString(v.i)| <= n)
    case IsBoolean => BooleanLike(v)
    case OneOf(names) => v.VStr? && v.s in names
    case IsDate => v.VDate?
    case ExistsIn(ids) => IdValue(v).Some? && IdValue(v).value in ids
  }

  /** `max` on an integer bounds its number of characters, not its value:
      `max:5` accepts 100 and `max:2` does not. */
  lemma MaxCountsCharacters()
    ensures RuleHolds(MaxLength(5), VInt(100)) && !RuleHolds(MaxLength(2), VInt(100))
  {
    assert |NatToString(10)| == 2;
    assert |NatToString(100)| == 3;
  }

  /** A field passes its rules: an absent field or a blank string only has
      to be optional; null passes only an optional field that is nullable or
      whose rules all accept null; any other value must meet every rule. */
  predicate FieldPasses(rules: seq<Rule>, v: Option<Value>)
  {
    if v.None? then Required !in rules
    else if v.value.VNull? then
      Required !in rules && (Nullable in rules || forall i :: 0 <= i < |rules| ==> RuleHolds(rules[i], VNull))
    else if v.value.VStr? && Blank(v.value.s) then Required !in rules
    else forall i :: 0 <= i < |rules| ==> RuleHolds(rules[i], v.value)
  }

  function Get(input: Input, field: string): Option<Value>
  {
    if field in input then Some(input[field]) else None
  }

  /** The fields a schema names. */
  predicate HasRules(schema: FieldRules, field: string)
  {
    exists i :: 0 <= i < |schema| && schema[i].0 == field
  }

  /** The fields that fail. */
  function Failures(schema: FieldRules, input: Input): set<string>
  {
    set i | 0 <= i < |schema| && !FieldPasses(schema[i].1, Get(input, schema[i].0)) :: schema[i].0
  }

  /** No field fails exactly when every field passes. */
  lemma NoFailures(schema: FieldRules, input: Input)
    ensures Failures(schema, input) == {} <==>
      forall i :: 0 <= i < |schema| ==> FieldPasses(schema[i].1, Get(input, schema[i].0))
  {
    forall i | 0 <= i < |schema|
      ensures !FieldPasses(schema[i].1, Get(input, schema[i].0)) ==> schema[i].0 in Failures(schema, input)
    {
    }
  }

  /** `$request->validate(...)`: the validated fields when every field
      passes, otherwise every failing field (and only those). */
  function Validate(schema: FieldRules, input: Input): (r: Result<Input, set<string>>)
    ensures r.Err? <==> exists i :: 0 <= i < |schema| && !FieldPasses(schema[i].1, Get(input, schema[i].0))
    ensures r.Err? ==> forall f :: f in r.error <==>
      exists i :: 0 <= i < |schema| && schema[i].0 == f && !FieldPasses(schema[i].1, Get(input, f))
    ensures r.Ok? ==> forall f :: f in r.value <==> f in input && HasRules(schema, f)
    ensures r.Ok? ==> forall f :: f in r.value ==> r.value[f] == input[f]
  {
    NoFailures(schema, input);
    var errors := Failures(schema, input);
    if errors != {} then Err(errors)
    else
      Ok(map f | f in input && HasRules(schema, f) :: input[f])
  }

  /** After a successful validation every field of the schema passed. */
  lemma Passed(schema: FieldRules, input: Input, i: nat)
    requires Validate(schema, input).Ok?
    requires i < |schema|
    ensures FieldPasses(schema[i].1, Get(input, schema[i].0))
  {
  }

  /** A field named once in the schema is reported exactly when it fails. */
  lemma Reported(schema: FieldRules, input: Input, i: nat)
    requires i < |schema|
    requires forall j :: 0 <= j < |schema| && j != i ==> schema[j].0 != schema[i].0
    ensures var e := Validate(schema, input);
      e.Err? ==> (schema[i].0 in e.error <==> !FieldPasses(schema[i].1, Get(input, schema[i].0)))
  {
  }

  /** A validated field's string value, if it holds one. */
  function StringField(v: Input, f: string): (r: Option<string>)
    ensures r.Some? <==> f in v && v[f].VStr?
    ensures r.Some? ==> v[f] == VStr(r.value)
  {
    if f in v && v[f].VStr? then Some(v[f].s) else None
  }

  /** `required|string|max:n`: a present, non-blank string of at most `n`
      characters, and nothing else. */
  lemma RequiredString(n: nat, v: Option<Value>)
    ensures FieldPasses([Required, IsString, MaxLength(n)], v) <==>
      v.Some? && v.value.VStr? && !Blank(v.value.s) && |v.value.s| <= n
  {
    var rules := [Required, IsString, MaxLength(n)];
    assert Required in rules;
    if v.Some? && !v.value.VNull? && !(v.value.VStr? && Blank(v.value.s)) {
      assert RuleHolds(rules[1], v.value) && RuleHolds(rules[2], v.value) ==> v.value.VStr? && |v.value.s| <= n;
    }
  }

  /** `boolean`: absent, blank, or one of the six boolean spellings. */
  lemma BooleanRule(v: Option<Value>)
    ensures FieldPasses([IsBoolean], v) <==>
      v.None? || BooleanLike(v.value) || (v.value.VStr? && Blank(v.value.s))
  {
    var rules := [IsBoolean];
    assert Nullable !in rules && Required !in rules;
    assert |rules| == 1 && rules[0] == IsBoolean;
  }

  /** `nullable|string`: absent, null, or any string. */
  lemma NullableString(v: Option<Value>)
    ensures FieldPasses([Nullable, IsString], v) <==> v.None? || v.value.VNull? || v.value.VStr?
  {
    var rules := [Nullable, IsString];
    assert Nullable in rules && Required !in rules;
    if v.Some? && !v.value.VNull? && !(v.value.VStr? && Blank(v.value.s)) {
      assert RuleHolds(rules[1], v.value) <==> v.value.VStr?;
    }
  }

  /** `required|in:...`: a present string among the names. */
  lemma RequiredOneOf(names: set<string>, v: Option<Value>)
    ensures FieldPasses([Required, OneOf(names)], v) <==>
      v.Some? && v.value.VStr? && v.value.s in names && !Blank(v.value.s)
  {
    var rules := [Required, OneOf(names)];
    assert Required in rules;
    assert |rules| == 2 && rules[1] == OneOf(names);
  }

  /** `required|exists:...`: a present id among the existing ones. */
  lemma RequiredExisting(ids: set<int>, v: Option<Value>)
    ensures FieldPasses([Required, ExistsIn(ids)], v) <==>
      v.Some? && (v.value.VInt? || (v.value.VStr? && |v.value.s| > 0 && AllDigits(v.value.s))) && IdValue(v.value).value in ids
  {
    var rules := [Required, ExistsIn(ids)];
    assert Required in rules;
    assert |rules| == 2 && rules[1] == ExistsIn(ids);
  }

  /** A field's integer value, if it holds one. */
  function IntField(v: Input, f: string): (r: Option<int>)
    ensures r.Some? <==> f in v && v[f].VInt?
    ensures r.Some? ==> v[f] == VInt(r.value)
  {
    if f in v && v[f].VInt? then Some(v[f].i) else None
  }

  /** A field's date value, if it holds one. */
  function DateField(v: Input, f: string): (r: Option<int>)
    ensures r.Some? <==> f in v && v[f].VDate?
    ensures r.Some? ==> v[f] == VDate(r.value)
  {
    if f in v && v[f].VDate? then Some(v[f].day) else None
  }
}
