/** The command's `handle`: runs the per-user rollover for every user in
    turn, each on the store the previous users left behind, and keeps the
    three counters it prints at the end. */
module JobRunner {
  import opened Wrappers
  import opened Seqs
  import opened Calendar
  import opened Schema
  import opened SettingModel
  import opened Rollover

  /** What the environment holds for one user during the run: the local
      clock in the user's zone, and where (if anywhere) processing raises. */
  datatype UserEnv = UserEnv(clock: LocalClock, fault: Fault)

  /** "Users processed", "Users skipped" and "Total todos created". */
  datatype Totals = Totals(processed: nat, skipped: nat, created: nat)

  /** The runner counts a user as skipped only in debug mode, and only when
      the result carries a truthy reason. */
  predicate CountedAsSkipped(debug: bool, r: UserResult)
  {
    !r.processed && debug && r.reason.Some? && Truthy(Message(r.reason.value))
  }

  /** The todos the processed users created. */
  function CreatedBy(results: seq<UserResult>): nat
  {
    if |results| == 0 then 0
    else
      var last := results[|results| - 1];
      CreatedBy(results[..|results| - 1]) + (if last.processed then last.todosCreated else 0)
  }

  /** The totals as counts over the result records. */
  function Tally(results: seq<UserResult>, debug: bool): Totals
  {
    Totals(
      Count(results, (r: UserResult) => r.processed),
      Count(results, (r: UserResult) => CountedAsSkipped(debug, r)),
      CreatedBy(results))
  }

  /** No user is counted both processed and skipped, and outside debug mode
      no user is counted skipped at all. */
  lemma TallyBounds(results: seq<UserResult>, debug: bool)
    ensures Tally(results, debug).processed + Tally(results, debug).skipped <= |results|
    ensures !debug ==> Tally(results, debug).skipped == 0
  {
    CountSplit(results, (r: UserResult) => r.processed || CountedAsSkipped(debug, r),
      (r: UserResult) => r.processed, (r: UserResult) => CountedAsSkipped(debug, r));
    if !debug {
      FilterNone(results, (r: UserResult) => CountedAsSkipped(debug, r));
    }
  }

  /** The run over `users` in order, as a fold: the final store and one
      result per user. */
  function Run(s: Store, users: seq<UserId>, env: UserId -> UserEnv, now: Timestamp, flags: Flags): (r: (Store, seq<UserResult>))
    ensures |r.1| == |users|
    decreases |users|
  {
    if |users| == 0 then (s, [])
    else
      var prev := Run(s, users[..|users| - 1], env, now, flags);
      var u := users[|users| - 1];
      var o := Step(prev.0, u, env(u), now, flags);
      (o.store, prev.1 + [o.result])
  }

  /** The run over one more user is one more step, and the totals grow
      by what that step's result adds. */
  lemma RunSnoc(s: Store, users: seq<UserId>, u: UserId, env: UserId -> UserEnv, now: Timestamp, flags: Flags,
                store: Store, results: seq<UserResult>, totals: Totals)
    requires (store, results) == Run(s, users, env, now, flags)
    requires totals == Tally(results, flags.debug)
    ensures var o := Step(store, u, env(u), now, flags);
      && Run(s, users + [u], env, now, flags) == (o.store, results + [o.result])
      && Tally(results + [o.result], flags.debug) == Add(totals, o.result, flags.debug)
  {
    assert (users + [u])[..|users|] == users;
    TallySnoc(results, Step(store, u, env(u), now, flags).result, flags.debug);
  }

  /** One iteration of the loop. */
  function Step(s: Store, u: UserId, e: UserEnv, now: Timestamp, flags: Flags): Outcome
  {
    ProcessUser(s, u, e.clock, now, flags, e.fault)
  }

  /** The counter update after each user: a processed user adds one and
      the todos it created; otherwise a user counted as skipped adds one. */
  function Add(t: Totals, r: UserResult, debug: bool): Totals
  {
    if r.processed then t.(processed := t.processed + 1, created := t.created + r.todosCreated)
    else if CountedAsSkipped(debug, r) then t.(skipped := t.skipped + 1)
    else t
  }

  lemma TallySnoc(results: seq<UserResult>, x: UserResult, debug: bool)
    ensures Tally(results + [x], debug) == Add(Tally(results, debug), x, debug)
  {
    CountSnoc(results, x, (r: UserResult) => r.processed);
    CountSnoc(results, x, (r: UserResult) => CountedAsSkipped(debug, r));
    assert (results + [x])[..|results|] == results;
  }

  /** Counting over one more element. */
  lemma CountSnoc<T>(s: seq<T>, x: T, p: T -> bool)
    ensures Count(s + [x], p) == Count(s, p) + (if p(x) then 1 else 0)
  {
    FilterAppend(s, [x], p);
    assert Filter([x], p) == (if p(x) then [x] else []) by {
      assert [x][1..] == [];
    }
  }

  /** The command: every user in `s.users` is processed once, in order;
      the counters equal the counts over the results. */
  method Handle(s: Store, env: UserId -> UserEnv, now: Timestamp, flags: Flags)
    returns (store: Store, results: seq<UserResult>, totals: Totals)
    ensures (store, results) == Run(s, s.users, env, now, flags)
    ensures |results| == |s.users|
    ensures totals == Tally(results, flags.debug)
  {
    store := s;
    results := [];
    totals := Totals(0, 0, 0);
    var i := 0;
    while i < |s.users|
      invariant 0 <= i <= |s.users|
      invariant (store, results) == Run(s, s.users[..i], env, now, flags)
      invariant totals == Tally(results, flags.debug)
    {
      store, results, totals := HandleUser(s, s.users, i, env, now, flags, store, results, totals);
      i := i + 1;
    }
    assert s.users[..i] == s.users;
  }

  /** One pass of the command's loop: the next user is processed and the
      counters are updated. */
  method HandleUser(s: Store, users: seq<UserId>, i: nat, env: UserId -> UserEnv, now: Timestamp, flags: Flags,
                    store: Store, results: seq<UserResult>, totals: Totals)
    returns (store': Store, results': seq<UserResult>, totals': Totals)
    requires i < |users|
    requires (store, results) == Run(s, users[..i], env, now, flags)
    requires totals == Tally(results, flags.debug)
    ensures (store', results') == Run(s, users[..i + 1], env, now, flags)
    ensures totals' == Tally(results', flags.debug)
  {
    var u := users[i];
    assert users[..i + 1] == users[..i] + [u];
    RunSnoc(s, users[..i], u, env, now, flags, store, results, totals);
    var o := Step(store, u, env(u), now, flags);
    totals' := Add(totals, o.result, flags.debug);
    store' := o.store;
    results' := results + [o.result];
  }

  /** A user whose zone cannot be read is skipped with the error as reason,
      and the run still yields a result for every other user. */
  lemma {:induction false} FaultIsolated(s: Store, users: seq<UserId>, env: UserId -> UserEnv, now: Timestamp, flags: Flags, i: nat)
    requires i < |users| && env(users[i]).fault.ClockFault?
    ensures Run(s, users, env, now, flags).1[i] == Skip(Failed(env(users[i]).fault.message))
    decreases |users|
  {
    var n := |users| - 1;
    var prev := Run(s, users[..n], env, now, flags);
    if i < n {
      FaultIsolated(s, users[..n], env, now, flags, i);
    } else {
      var e := env(users[n]);
      FaultBeforeGate(prev.0, users[n], e.clock, now, flags, e.fault);
    }
  }

  /** In debug mode every user is counted once, as processed or as skipped;
      otherwise nobody is counted as skipped. */
  lemma {:induction false} EveryUserCounted(s: Store, users: seq<UserId>, env: UserId -> UserEnv, now: Timestamp, flags: Flags)
    ensures var t := Tally(Run(s, users, env, now, flags).1, flags.debug);
      && (flags.debug ==> t.processed + t.skipped == |users|)
      && (!flags.debug ==> t.skipped == 0)
    decreases |users|
  {
    if |users| > 0 {
      var n := |users| - 1;
      var prev := Run(s, users[..n], env, now, flags);
      EveryUserCounted(s, users[..n], env, now, flags);
      var o := Step(prev.0, users[n], env(users[n]), now, flags);
      RunSnoc(s, users[..n], users[n], env, now, flags, prev.0, prev.1, Tally(prev.1, flags.debug));
      assert users[..n] + [users[n]] == users;
      if !o.result.processed {
        MessageMentions(o.result.reason.value);
      }
    }
  }

  /** The run adds no user and no list, and keeps every existing todo. */
  lemma {:induction false} RunKeepsRows(s: Store, users: seq<UserId>, env: UserId -> UserEnv, now: Timestamp, flags: Flags)
    ensures var r := Run(s, users, env, now, flags).0;
      && r.users == s.users && r.lists == s.lists
      && |s.todos| <= |r.todos| && r.todos[..|s.todos|] == s.todos
    decreases |users|
  {
    if |users| > 0 {
      var n := |users| - 1;
      var prev := Run(s, users[..n], env, now, flags);
      RunKeepsRows(s, users[..n], env, now, flags);
      var e := env(users[n]);
      ProcessUserKeepsRows(prev.0, users[n], e.clock, now, flags, e.fault);
    }
  }

  /** After the run every user it visited has a settings row, and no other
      row was created. */
  lemma {:induction false} RunCreatesSettings(s: Store, users: seq<UserId>, env: UserId -> UserEnv, now: Timestamp, flags: Flags)
    ensures var r := Run(s, users, env, now, flags).0;
      forall v :: v in r.settings <==> v in s.settings || v in users
    decreases |users|
  {
    if |users| > 0 {
      var n := |users| - 1;
      var prev := Run(s, users[..n], env, now, flags);
      RunCreatesSettings(s, users[..n], env, now, flags);
      RunLast(s, users, env, now, flags);
      var u := users[n];
      GetOrCreateValid(prev.0, u);
      InLastOrBefore(users);
      assert Run(s, users, env, now, flags).0.settings.Keys == prev.0.settings.Keys + {u};
    }
  }

  /** A member of a non-empty sequence is its last element or one before. */
  lemma InLastOrBefore<T>(xs: seq<T>)
    requires |xs| > 0
    ensures forall v :: v in xs <==> v in xs[..|xs| - 1] || v == xs[|xs| - 1]
  {
    assert xs == xs[..|xs| - 1] + [xs[|xs| - 1]];
  }

  /** The last user's step. */
  lemma RunLast(s: Store, users: seq<UserId>, env: UserId -> UserEnv, now: Timestamp, flags: Flags)
    requires |users| > 0
    ensures var n := |users| - 1;
      var prev := Run(s, users[..n], env, now, flags);
      var e := env(users[n]);
      Run(s, users, env, now, flags).0 == ProcessUser(prev.0, users[n], e.clock, now, flags, e.fault).store
  {
  }

  /** A dry run changes nothing but the settings table. */
  lemma {:induction false} DryRunOnlyCreatesSettings(s: Store, users: seq<UserId>, env: UserId -> UserEnv, now: Timestamp, flags: Flags)
    requires flags.dryRun
    ensures var r := Run(s, users, env, now, flags).0;
      r == s.(settings := r.settings)
    decreases |users|
  {
    if |users| > 0 {
      var n := |users| - 1;
      var prev := Run(s, users[..n], env, now, flags);
      DryRunOnlyCreatesSettings(s, users[..n], env, now, flags);
      var e := env(users[n]);
      DryRunWritesNothing(prev.0, users[n], e.clock, now, flags, e.fault);
    }
  }

  /** Running over registered users keeps the schema's constraints. */
  lemma {:induction false} RunValid(s: Store, users: seq<UserId>, env: UserId -> UserEnv, now: Timestamp, flags: Flags)
    requires Valid(s)
    requires forall v :: v in users ==> v in s.users
    ensures Valid(Run(s, users, env, now, flags).0)
    decreases |users|
  {
    if |users| > 0 {
      var n := |users| - 1;
      var prev := Run(s, users[..n], env, now, flags);
      assert forall v :: v in users[..n] ==> v in users;
      RunValid(s, users[..n], env, now, flags);
      RunKeepsRows(s, users[..n], env, now, flags);
      RunLast(s, users, env, now, flags);
      var e := env(users[n]);
      assert users[n] in prev.0.users;
      ProcessUserValid(prev.0, users[n], e.clock, now, flags, e.fault);
    }
  }
}
