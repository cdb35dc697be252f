/** The settings page: the request validator and the three actions, each of
    which first fetches the user's settings row, creating it from the
    defaults when there is none. */
module SettingController {
  import opened Wrappers
  import opened Seqs
  import opened Schema
  import opened SettingModel
  import opened Validation

  /** The settings request's rules. */
  function SettingsRules(): FieldRules
  {
    [("timezone", [Required, IsString, MaxLength(255)]),
     ("date_format", [Required, IsString, MaxLength(50)]),
     ("time_format", [Required, IsString, MaxLength(50)]),
     ("email_notifications", [IsBoolean]),
     ("browser_notifications", [IsBoolean])]
  }

  /** A field the three required rules accept. */
  predicate GoodText(input: Input, f: string, n: nat)
  {
    f in input && input[f].VStr? && !Blank(input[f].s) && |input[f].s| <= n
  }

  /** What each of the request's five rule lists accepts. */
  lemma SettingsFieldsMeaning(input: Input)
    ensures var rules := SettingsRules();
      && |rules| == 5
      && rules[0].0 == "timezone" && rules[1].0 == "date_format" && rules[2].0 == "time_format"
      && rules[3].0 == "email_notifications" && rules[4].0 == "browser_notifications"
      && (FieldPasses(rules[0].1, Get(input, rules[0].0)) <==> GoodText(input, "timezone", 255))
      && (FieldPasses(rules[1].1, Get(input, rules[1].0)) <==> GoodText(input, "date_format", 50))
      && (FieldPasses(rules[2].1, Get(input, rules[2].0)) <==> GoodText(input, "time_format", 50))
      && (FieldPasses(rules[3].1, Get(input, rules[3].0)) <==> FieldPasses([IsBoolean], Get(input, "email_notifications")))
      && (FieldPasses(rules[4].1, Get(input, rules[4].0)) <==> FieldPasses([IsBoolean], Get(input, "browser_notifications")))
  {
    RequiredString(255, Get(input, "timezone"));
    RequiredString(50, Get(input, "date_format"));
    RequiredString(50, Get(input, "time_format"));
  }

  /** The request passes exactly when the three text fields are present,
      non-blank and short enough and the two flags are boolean; and each
      text field is reported exactly when it is missing, blank or too long. */
  lemma SettingsRulesMeaning(input: Input)
    ensures var e := Validate(SettingsRules(), input);
      && (e.Ok? <==>
            (&& GoodText(input, "timezone", 255) && GoodText(input, "date_format", 50)
             && GoodText(input, "time_format", 50)
             && FieldPasses([IsBoolean], Get(input, "email_notifications"))
             && FieldPasses([IsBoolean], Get(input, "browser_notifications"))))
      && (e.Err? ==> ("timezone" in e.error <==> !GoodText(input, "timezone", 255)))
      && (e.Err? ==> ("date_format" in e.error <==> !GoodText(input, "date_format", 50)))
      && (e.Err? ==> ("time_format" in e.error <==> !GoodText(input, "time_format", 50)))
  {
    SettingsPass(input);
    SettingsReported(input);
  }

  lemma SettingsPass(input: Input)
    ensures Validate(SettingsRules(), input).Ok? <==>
      (&& GoodText(input, "timezone", 255) && GoodText(input, "date_format", 50)
       && GoodText(input, "time_format", 50)
       && FieldPasses([IsBoolean], Get(input, "email_notifications"))
       && FieldPasses([IsBoolean], Get(input, "browser_notifications")))
  {
    SettingsFieldsMeaning(input);
    var rules := SettingsRules();
    if Validate(rules, input).Ok? {
      Passed(rules, input, 0);
      Passed(rules, input, 1);
      Passed(rules, input, 2);
      Passed(rules, input, 3);
      Passed(rules, input, 4);
    } else {
      var i :| 0 <= i < |rules| && !FieldPasses(rules[i].1, Get(input, rules[i].0));
      assert i == 0 || i == 1 || i == 2 || i == 3 || i == 4;
    }
  }

  /** The request names each field once. */
  lemma SettingsNamesDistinct()
    ensures forall i, j :: 0 <= i < j < |SettingsRules()| ==> SettingsRules()[i].0 != SettingsRules()[j].0
  {
  }

  lemma SettingsReported(input: Input)
    ensures var e := Validate(SettingsRules(), input);
      && (e.Err? ==> ("timezone" in e.error <==> !GoodText(input, "timezone", 255)))
      && (e.Err? ==> ("date_format" in e.error <==> !GoodText(input, "date_format", 50)))
      && (e.Err? ==> ("time_format" in e.error <==> !GoodText(input, "time_format", 50)))
  {
    TextReported(input, 0, "timezone", 255);
    TextReported(input, 1, "date_format", 50);
    TextReported(input, 2, "time_format", 50);
  }

  /** A required text field of the request is reported exactly when it is
      missing, blank or too long. */
  lemma TextReported(input: Input, i: nat, f: string, n: nat)
    requires i < |SettingsRules()| && SettingsRules()[i] == (f, [Required, IsString, MaxLength(n)])
    ensures var e := Validate(SettingsRules(), input);
      e.Err? ==> (f in e.error <==> !GoodText(input, f, n))
  {
    SettingsNamesDistinct();
    Reported(SettingsRules(), input, i);
    RequiredString(n, Get(input, f));
  }

  /** `getTimezones`: each identifier mapped to itself. */
  method GetTimezones(ids: seq<string>) returns (m: map<string, string>)
    ensures forall k :: k in m <==> k in ids
    ensures forall k :: k in m ==> m[k] == k
    ensures Distinct(ids) ==> |m| == |ids|
  {
    m := map[];
    var i := 0;
    while i < |ids|
      invariant 0 <= i <= |ids|
      invariant forall k :: k in m <==> k in ids[..i]
      invariant forall k :: k in m ==> m[k] == k
      invariant Distinct(ids) ==> |m| == i
    {
      assert ids[..i + 1] == ids[..i] + [ids[i]];
      if Distinct(ids) {
        assert ids[i] !in ids[..i];
      }
      m := m[ids[i] := ids[i]];
      i := i + 1;
    }
    assert ids[..i] == ids;
  }

  /** The settings page's data. */
  datatype EditPage = EditPage(settings: Settings, timezones: map<string, string>)

  /** `edit`: the user's settings, created from the defaults when missing. */
  method Edit(s: Store, u: UserId, ids: seq<string>) returns (store: Store, page: EditPage)
    ensures u in s.settings ==> store == s && page.settings == s.settings[u]
    ensures u !in s.settings ==> page.settings == Defaults(u) && store.settings == s.settings[u := Defaults(u)]
    ensures store == s.(settings := store.settings)
    ensures forall k :: k in page.timezones <==> k in ids
  {
    var f := GetOrCreate(s, u);
    var zones := GetTimezones(ids);
    store := f.store;
    page := EditPage(f.settings, zones);
  }

  /** The row after a validated update: the three text fields always, each
      flag when the request carries it; the owner stays. */
  function Apply(row: Settings, input: Input): (r: Settings)
    ensures r.userId == row.userId
    ensures GoodText(input, "timezone", 255) && GoodText(input, "date_format", 50) && GoodText(input, "time_format", 50) ==>
      && r.timezone == Some(input["timezone"].s)
      && r.dateFormat == input["date_format"].s && r.timeFormat == input["time_format"].s
    ensures "email_notifications" in input ==> r.emailNotifications == AsBool(input["email_notifications"])
    ensures "email_notifications" !in input ==> r.emailNotifications == row.emailNotifications
    ensures "browser_notifications" in input ==> r.browserNotifications == AsBool(input["browser_notifications"])
    ensures "browser_notifications" !in input ==> r.browserNotifications == row.browserNotifications
  {
    row.(timezone := Some(StringField(input, "timezone").GetOr("")),
         dateFormat := StringField(input, "date_format").GetOr(row.dateFormat),
         timeFormat := StringField(input, "time_format").GetOr(row.timeFormat),
         emailNotifications :=
           if "email_notifications" in input then AsBool(input["email_notifications"]) else row.emailNotifications,
         browserNotifications :=
           if "browser_notifications" in input then AsBool(input["browser_notifications"]) else row.browserNotifications)
  }

  /** `update`: the failing fields (checked before anything is written), or
      the user's row, fetched or created, overwritten with exactly the
      validated fields. No other row changes. */
  function Update(s: Store, u: UserId, input: Input): (r: Response<Store>)
    ensures r.Done? || r.Invalid?
    ensures r.Invalid? <==> Validate(SettingsRules(), input).Err?
    ensures r.Done? ==>
      && u in r.value.settings
      && GoodText(input, "timezone", 255) && GoodText(input, "date_format", 50) && GoodText(input, "time_format", 50)
    ensures r.Done? ==>
      var row := GetOrCreate(s, u).settings; var row' := r.value.settings[u];
      && r.value == s.(settings := s.settings[u := row'])
      && row'.userId == row.userId
      && row'.timezone == Some(input["timezone"].s)
      && row'.dateFormat == input["date_format"].s && row'.timeFormat == input["time_format"].s
      && ("email_notifications" in input ==> row'.emailNotifications == AsBool(input["email_notifications"]))
      && ("email_notifications" !in input ==> row'.emailNotifications == row.emailNotifications)
      && ("browser_notifications" in input ==> row'.browserNotifications == AsBool(input["browser_notifications"]))
      && ("browser_notifications" !in input ==> row'.browserNotifications == row.browserNotifications)
  {
    match Validate(SettingsRules(), input)
    case Err(e) => Invalid(e)
    case Ok(_) =>
      SettingsRulesMeaning(input);
      var f := GetOrCreate(s, u);
      Done(s.(settings := s.settings[u := Apply(f.settings, input)]))
  }

  /** The rule `updateTimezone` validates. */
  function TimezoneRules(): FieldRules
  {
    [("timezone", [Required, IsString, MaxLength(255)])]
  }

  /** `updateTimezone`: a missing, blank or over-long zone is rejected;
      otherwise only the timezone of the user's row (created from the
      defaults when missing) changes. */
  function UpdateTimezone(s: Store, u: UserId, input: Input): (r: Response<Store>)
    ensures r.Done? || r.Invalid?
    ensures r.Invalid? <==> !GoodText(input, "timezone", 255)
    ensures r.Invalid? ==> r.errors == {"timezone"}
    ensures r.Done? ==>
      r.value == s.(settings := s.settings[u := GetOrCreate(s, u).settings.(timezone := Some(input["timezone"].s))])
  {
    RequiredString(255, Get(input, "timezone"));
    assert TimezoneRules()[0].0 == "timezone";
    match Validate(TimezoneRules(), input)
    case Err(e) => Invalid(e)
    case Ok(_) =>
      var f := GetOrCreate(s, u);
      Done(s.(settings := s.settings[u := f.settings.(timezone := Some(input["timezone"].s))]))
  }

  /** A settings update keeps the schema's constraints for a registered user. */
  lemma UpdateValid(s: Store, u: UserId, input: Input)
    requires Valid(s) && u in s.users
    ensures var r := Update(s, u, input);
      r.Done? ==> Valid(r.value)
  {
    var r := Update(s, u, input);
    if r.Done? {
      var row' := r.value.settings[u];
      assert row'.userId == GetOrCreate(s, u).settings.userId == u;
      PutSettingsValid(s, u, row');
    }
  }

  /** A timezone change keeps the schema's constraints for a registered user. */
  lemma UpdateTimezoneValid(s: Store, u: UserId, input: Input)
    requires Valid(s) && u in s.users
    ensures var r := UpdateTimezone(s, u, input);
      r.Done? ==> Valid(r.value)
  {
    var r := UpdateTimezone(s, u, input);
    if r.Done? {
      var row := GetOrCreate(s, u).settings;
      assert row.userId == u;
      PutSettingsValid(s, u, row.(timezone := Some(input["timezone"].s)));
    }
  }

  /** Sending the same settings twice changes nothing the second time. */
  lemma UpdateIdempotent(s: Store, u: UserId, input: Input)
    ensures var r := Update(s, u, input);
      r.Done? ==> Update(r.value, u, input) == r
  {
    var r := Update(s, u, input);
    if r.Done? {
      var row := GetOrCreate(s, u).settings;
      var a := Apply(row, input);
      assert r.value == s.(settings := s.settings[u := a]);
      assert GetOrCreate(r.value, u).settings == a;
      assert Apply(a, input) == a;
      assert r.value.settings[u := a] == r.value.settings;
    }
  }

  /** Setting the same timezone twice changes nothing the second time. */
  lemma UpdateTimezoneIdempotent(s: Store, u: UserId, input: Input)
    ensures var r := UpdateTimezone(s, u, input);
      r.Done? ==> UpdateTimezone(r.value, u, input) == r
  {
    var r := UpdateTimezone(s, u, input);
    if r.Done? {
      var a := GetOrCreate(s, u).settings.(timezone := Some(input["timezone"].s));
      assert GetOrCreate(r.value, u).settings == a;
      assert r.value.settings[u := a] == r.value.settings;
    }
  }
}
