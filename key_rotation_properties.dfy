/** What a rotation step and a whole run do to the credentials file and to the
    provider's keys. */
module KeyRotationProperties {
  import opened Wrappers
  import opened Iam
  import opened CredentialsStore
  import opened KeyRotation

  /** The file-level effect of a step, as the frame lemmas state it: same sections in the
      same order, sections of other names verbatim, only the profile's two key options
      changed, and those only to the issued key. */
  ghost predicate TouchesOnlyKeyFields(before: Store, after: Store, profile: string, issued: Option<AccessKey>)
  {
    && SameNames(after, before)
    && (forall j :: 0 <= j < |before| && before[j].name != profile ==> after[j] == before[j])
    && (forall n, o :: (n != profile || (o != AccessKeyIdOption && o != SecretAccessKeyOption)) ==>
                        Get(after, n, o) == Get(before, n, o))
    && (after != before ==>
          issued.Some? &&
          Get(after, profile, AccessKeyIdOption) == Some(issued.value.id) &&
          Get(after, profile, SecretAccessKeyOption) == Some(issued.value.secret))
  }

  lemma ReplaceKeyStoreFrame(st: State, profile: string, recorded: OldCredentials, rp: Replies)
    ensures TouchesOnlyKeyFields(st.store, ReplaceKey(st, profile, recorded, rp).state.store, profile, rp.issued)
  {
    if rp.issued.Some? && DistinctNames(st.store) && HasSection(st.store, profile) {
      forall n, o | n != profile || (o != AccessKeyIdOption && o != SecretAccessKeyOption)
        ensures Get(WithCredentials(st.store, profile, rp.issued.value).value, n, o) == Get(st.store, n, o)
      {
        WithCredentialsGet(st.store, profile, rp.issued.value, n, o);
      }
    }
  }

  /** A step touches at most the two key options of its own profile's section, and it
      writes them only with the key the provider issued. */
  lemma StepStoreFrame(st: State, profile: string, force: bool, rp: Replies)
    ensures TouchesOnlyKeyFields(st.store, RotateStep(st, profile, force, rp).state.store, profile, rp.issued)
  {
    var user := rp.session.user;
    if user in st.keys && |st.keys[user]| > 1 && force {
      var unused := FirstOther(st.keys[user], SessionKeyId(rp.session));
      var after := DeleteKey(st.keys, user, unused, rp.unusedKeyDeleteSucceeds);
      if after.Some? {
        ReplaceKeyStoreFrame(State(st.store, after.value), profile, OldCredentials(user, unused, None), rp);
      }
    } else if user in st.keys && |st.keys[user]| <= 1 {
      ReplaceKeyStoreFrame(st, profile, OldCredentials(user, None, None), rp);
    }
  }

  /** More than one key without the force flag stops at once and changes nothing;
      nothing else produces that halt. */
  lemma MultipleKeysWithoutForce(st: State, profile: string, force: bool, rp: Replies)
    ensures var user := rp.session.user;
      (RotateStep(st, profile, force, rp).halt == Some(MultipleKeys(profile))) <==>
      (user in st.keys && |st.keys[user]| > 1 && !force)
    ensures var user := rp.session.user;
      user in st.keys && |st.keys[user]| > 1 && !force ==>
        RotateStep(st, profile, force, rp) == StepResult(st, Some(MultipleKeys(profile)))
  {
  }

  /** When key creation fails the file is untouched and the run stops. Unless the forced
      deletion ran, the provider's keys are untouched too; if it ran, it removed only the
      unused key, so the session's own key is never lost. */
  lemma CreateFailureLeavesStoreUntouched(st: State, profile: string, force: bool, rp: Replies)
    requires rp.issued.None?
    ensures var r := RotateStep(st, profile, force, rp);
      && r.state.store == st.store
      && r.halt.Some?
      && (var user := rp.session.user;
          !(force && user in st.keys && |st.keys[user]| > 1) ==> r.state.keys == st.keys)
      && (var user := rp.session.user;
          var unused := FirstOther(if user in st.keys then st.keys[user] else [], SessionKeyId(rp.session));
          force && user in st.keys && |st.keys[user]| > 1 ==>
            r.state.keys == st.keys ||
            (unused.Some? && r.state.keys == st.keys[user := Without(st.keys[user], unused.value)]))
      && (var user := rp.session.user;
          rp.session.accessKey.Some? && user in st.keys && rp.session.accessKey.value.id in st.keys[user] ==>
            user in r.state.keys && rp.session.accessKey.value.id in r.state.keys[user])
  {
    var user := rp.session.user;
    if force && user in st.keys && |st.keys[user]| > 1 {
      var unused := FirstOther(st.keys[user], SessionKeyId(rp.session));
      DeleteKeyEffect(st.keys, user, unused, rp.unusedKeyDeleteSucceeds);
    }
  }

  /** The old key is deleted last: a step that halts, at whatever stage, leaves the
      session's own key with the user. Together with `SuccessfulStep`, the session's key
      only goes once the issued key is in the file. */
  lemma HaltKeepsSessionKey(st: State, profile: string, force: bool, rp: Replies)
    requires rp.session.accessKey.Some? && rp.session.user in st.keys
    requires rp.session.accessKey.value.id in st.keys[rp.session.user]
    requires RotateStep(st, profile, force, rp).halt.Some?
    ensures var r := RotateStep(st, profile, force, rp);
      rp.session.user in r.state.keys && rp.session.accessKey.value.id in r.state.keys[rp.session.user]
  {
    var user := rp.session.user;
    var k := rp.session.accessKey.value.id;
    var keys1 := st.keys;
    if |st.keys[user]| > 1 && force {
      var unused := FirstOther(st.keys[user], SessionKeyId(rp.session));
      DeleteKeyEffect(st.keys, user, unused, rp.unusedKeyDeleteSucceeds);
      if DeleteKey(st.keys, user, unused, rp.unusedKeyDeleteSucceeds).Some? {
        keys1 := DeleteKey(st.keys, user, unused, rp.unusedKeyDeleteSucceeds).value;
      }
    }
    CreateKeyEffect(keys1, user, rp.issued);
  }

  /** The replacement with every reply favourable: the session's key leaves the user's
      keys, the issued key joins them at the end, and the file holds the issued key. */
  lemma ReplaceKeySucceeds(st: State, profile: string, recorded: OldCredentials, rp: Replies)
    requires recorded.user in st.keys && Distinct(st.keys[recorded.user])
    requires rp.session.accessKey.Some? && rp.session.accessKey.value.id in st.keys[recorded.user]
    requires rp.issued.Some? && rp.issued.value.id !in st.keys[recorded.user]
    requires rp.oldKeyDeleteSucceeds && DistinctNames(st.store) && HasSection(st.store, profile)
    ensures ReplaceKey(st, profile, recorded, rp) ==
      StepResult(State(WithCredentials(st.store, profile, rp.issued.value).value,
                       st.keys[recorded.user := Without(st.keys[recorded.user], rp.session.accessKey.value.id) +
                                                    [rp.issued.value.id]]),
                 None)
  {
    var user := recorded.user;
    var ids := st.keys[user];
    var k := rp.session.accessKey.value.id;
    var n := rp.issued.value.id;
    var keys2 := st.keys[user := ids + [n]];
    assert CreateKey(st.keys, user, rp.issued) == Some(keys2) by {
      assert st.keys[user := st.keys[user] + [n]] == keys2;
    }
    assert n != k;
    WithoutConcat(ids, [n], k);
    WithoutAbsent([n], k);
    assert keys2[user := Without(ids + [n], k)] == st.keys[user := Without(ids, k) + [n]];
  }

  /** What the replacement does to the provider's keys: other users keep theirs, the
      user gains at most the issued key and loses at most the session's key, and when
      the replacement completes the session's key is gone and the file holds the
      issued key. */
  lemma ReplaceKeyKeys(st: State, profile: string, recorded: OldCredentials, rp: Replies)
    requires recorded.user in st.keys
    ensures var r := ReplaceKey(st, profile, recorded, rp);
      var user := recorded.user;
      && r.state.keys.Keys == st.keys.Keys
      && (forall u :: u in st.keys && u != user ==> r.state.keys[u] == st.keys[u])
      && (forall x :: x in r.state.keys[user] ==> x in st.keys[user] || (rp.issued.Some? && x == rp.issued.value.id))
      && (forall x :: x in st.keys[user] && Some(x) != SessionKeyId(rp.session) ==> x in r.state.keys[user])
      && (r.halt.None? ==>
            && rp.session.accessKey.Some? && rp.issued.Some?
            && rp.session.accessKey.value.id !in r.state.keys[user]
            && Some(r.state.store) == WithCredentials(st.store, profile, rp.issued.value))
  {
    var user := recorded.user;
    var verified := VerifyProfilesConfiguration(rp.session, recorded);
    if verified.Ok? && rp.issued.Some? {
      CreateKeyEffect(st.keys, user, rp.issued);
      var keys2 := CreateKey(st.keys, user, rp.issued).value;
      var deleted := DeleteKey(keys2, user, verified.value.accessKeyId, rp.oldKeyDeleteSucceeds);
      if deleted.Some? {
        DeleteKeyEffect(keys2, user, verified.value.accessKeyId, rp.oldKeyDeleteSucceeds);
      }
    }
  }

  /** A step that completes has written the issued key into the profile's section and
      deleted the session's own key: even after a forced deletion the key deleted last
      is the one the session was using. Only the issued key was added, and other users'
      keys are as they were. */
  lemma SuccessfulStep(st: State, profile: string, force: bool, rp: Replies)
    requires RotateStep(st, profile, force, rp).halt.None?
    ensures var r := RotateStep(st, profile, force, rp);
      var user := rp.session.user;
      && rp.session.accessKey.Some? && rp.issued.Some?
      && user in st.keys && user in r.state.keys && r.state.keys.Keys == st.keys.Keys
      && Some(r.state.store) == WithCredentials(st.store, profile, rp.issued.value)
      && rp.session.accessKey.value.id !in r.state.keys[user]
      && (forall x :: x in r.state.keys[user] ==> x == rp.issued.value.id || x in st.keys[user])
      && (forall u :: u in st.keys && u != user ==> r.state.keys[u] == st.keys[u])
  {
    var user := rp.session.user;
    var inventory := st.keys[user];
    if |inventory| > 1 {
      var unused := FirstOther(inventory, SessionKeyId(rp.session));
      DeleteKeyEffect(st.keys, user, unused, rp.unusedKeyDeleteSucceeds);
      var keys1 := DeleteKey(st.keys, user, unused, rp.unusedKeyDeleteSucceeds).value;
      ReplaceKeyKeys(State(st.store, keys1), profile, OldCredentials(user, unused, None), rp);
    } else {
      ReplaceKeyKeys(st, profile, OldCredentials(user, None, None), rp);
    }
  }

  /** With force and two or more distinct keys, the key deleted first is the first one
      that is not the session's key; it is gone whatever happens afterwards, and no key
      other than it and the session's key is ever removed. */
  lemma ForcedDeletion(st: State, profile: string, rp: Replies)
    requires rp.session.user in st.keys
    requires Distinct(st.keys[rp.session.user]) && |st.keys[rp.session.user]| > 1
    requires rp.session.accessKey.Some? && rp.unusedKeyDeleteSucceeds
    requires rp.issued.Some? ==> rp.issued.value.id !in st.keys[rp.session.user]
    ensures var inventory := st.keys[rp.session.user];
      var current := rp.session.accessKey.value.id;
      var unused := if inventory[0] != current then inventory[0] else inventory[1];
      var r := RotateStep(st, profile, true, rp);
      && unused != current
      && rp.session.user in r.state.keys
      && unused !in r.state.keys[rp.session.user]
      && (forall x :: x in inventory && x != unused && x != current ==> x in r.state.keys[rp.session.user])
  {
    var user := rp.session.user;
    var inventory := st.keys[user];
    var current := rp.session.accessKey.value.id;
    var unused := if inventory[0] != current then inventory[0] else inventory[1];
    assert FirstOther(inventory, Some(current)) == Some(unused) by {
      if inventory[0] == current {
        assert inventory[1..][0] == inventory[1];
        assert inventory[1] != inventory[0];
      }
    }
    DeleteKeyEffect(st.keys, user, Some(unused), true);
    var keys1 := DeleteKey(st.keys, user, Some(unused), true).value;
    ReplaceKeyKeys(State(st.store, keys1), profile, OldCredentials(user, Some(unused), None), rp);
  }

  /** The replacement when the user holds only the session's key: with an issued key of
      a new id, the file section written and the old key's deletion going through, the
      new key is the user's only key and the profile's section holds it. */
  lemma ReplaceSingleKey(st: State, profile: string, recorded: OldCredentials, rp: Replies)
    requires recorded.user in st.keys
    requires rp.session.accessKey.Some? && st.keys[recorded.user] == [rp.session.accessKey.value.id]
    requires rp.issued.Some? && rp.issued.value.id != rp.session.accessKey.value.id
    requires rp.oldKeyDeleteSucceeds && DistinctNames(st.store) && HasSection(st.store, profile)
    ensures var r := ReplaceKey(st, profile, recorded, rp);
      && r.halt.None?
      && r.state.keys == st.keys[recorded.user := [rp.issued.value.id]]
      && Get(r.state.store, profile, AccessKeyIdOption) == Some(rp.issued.value.id)
      && Get(r.state.store, profile, SecretAccessKeyOption) == Some(rp.issued.value.secret)
  {
    ReplaceKeySucceeds(st, profile, recorded, rp);
    ReplaceOnlyKey(st.keys, recorded.user, rp.session.accessKey.value.id, rp.issued.value.id);
  }

  /** One key, used by the session, and an issued key with a new id: the profile's pass
      leaves exactly the new key on the provider's side and in the profile's section. */
  lemma SingleKeyRotation(st: State, profile: string, force: bool, rp: Replies)
    requires rp.session.user in st.keys
    requires rp.session.accessKey.Some? && st.keys[rp.session.user] == [rp.session.accessKey.value.id]
    requires rp.issued.Some? && rp.issued.value.id != rp.session.accessKey.value.id
    requires rp.oldKeyDeleteSucceeds && DistinctNames(st.store) && HasSection(st.store, profile)
    ensures var r := RotateStep(st, profile, force, rp);
      && r.halt.None?
      && r.state.keys == st.keys[rp.session.user := [rp.issued.value.id]]
      && Get(r.state.store, profile, AccessKeyIdOption) == Some(rp.issued.value.id)
      && Get(r.state.store, profile, SecretAccessKeyOption) == Some(rp.issued.value.secret)
  {
    ReplaceSingleKey(st, profile, OldCredentials(rp.session.user, None, None), rp);
  }

  /** The forced stage with two distinct keys, one of them the session's: the other one
      is picked and deleted, which leaves the session's key alone. */
  lemma TwoKeysForcedStage(st: State, rp: Replies)
    requires rp.session.user in st.keys && |st.keys[rp.session.user]| == 2
    requires st.keys[rp.session.user][0] != st.keys[rp.session.user][1]
    requires rp.session.accessKey.Some? && rp.session.accessKey.value.id in st.keys[rp.session.user]
    requires rp.unusedKeyDeleteSucceeds
    ensures var user := rp.session.user;
      var inv := st.keys[user];
      var k := rp.session.accessKey.value.id;
      var unused := if inv[0] != k then inv[0] else inv[1];
      && FirstOther(inv, SessionKeyId(rp.session)) == Some(unused)
      && DeleteKey(st.keys, user, Some(unused), true) == Some(st.keys[user := [k]])
  {
    var user := rp.session.user;
    var inv := st.keys[user];
    var k := rp.session.accessKey.value.id;
    var unused := if inv[0] != k then inv[0] else inv[1];
    assert FirstOther(inv, Some(k)) == Some(unused) by {
      if inv[0] == k {
        assert inv[1..][0] == inv[1];
      }
    }
    assert inv == [inv[0], inv[1]];
    WithoutPair(inv[0], inv[1]);
  }

  /** Deleting either key of a pair of distinct keys leaves the other one. */
  lemma WithoutPair(a: string, b: string)
    requires a != b
    ensures Without([a, b], a) == [b] && Without([a, b], b) == [a]
  {
    assert [a, b][1..] == [b];
    assert [b][1..] == [];
  }

  /** Two distinct keys, one of them the session's, with force: the unused one is
      deleted first, the session's one last, and exactly the new key remains. */
  lemma TwoKeysForcedRotation(st: State, profile: string, rp: Replies)
    requires rp.session.user in st.keys && |st.keys[rp.session.user]| == 2
    requires st.keys[rp.session.user][0] != st.keys[rp.session.user][1]
    requires rp.session.accessKey.Some? && rp.session.accessKey.value.id in st.keys[rp.session.user]
    requires rp.issued.Some? && rp.issued.value.id !in st.keys[rp.session.user]
    requires rp.unusedKeyDeleteSucceeds && rp.oldKeyDeleteSucceeds && DistinctNames(st.store) && HasSection(st.store, profile)
    ensures var r := RotateStep(st, profile, true, rp);
      && r.halt.None?
      && r.state.keys == st.keys[rp.session.user := [rp.issued.value.id]]
      && Get(r.state.store, profile, AccessKeyIdOption) == Some(rp.issued.value.id)
      && Get(r.state.store, profile, SecretAccessKeyOption) == Some(rp.issued.value.secret)
  {
    var user := rp.session.user;
    var inv := st.keys[user];
    var k := rp.session.accessKey.value.id;
    var unused := if inv[0] != k then inv[0] else inv[1];
    var keys1 := st.keys[user := [k]];
    var recorded := OldCredentials(user, Some(unused), None);
    TwoKeysForcedStage(st, rp);
    assert RotateStep(st, profile, true, rp) == ReplaceKey(State(st.store, keys1), profile, recorded, rp);
    ReplaceSingleKey(State(st.store, keys1), profile, recorded, rp);
    UpdateTwice(st.keys, user, [k], [rp.issued.value.id]);
  }

  /** A second update of the same user replaces the first. */
  lemma UpdateTwice(keys: Inventory, user: User, a: seq<string>, b: seq<string>)
    ensures keys[user := a][user := b] == keys[user := b]
  {
  }

  /** Replacing the only key by a new one. */
  lemma ReplaceOnlyKey(keys: Inventory, user: User, k: string, n: string)
    requires user in keys && keys[user] == [k]
    ensures keys[user := Without(keys[user], k) + [n]] == keys[user := [n]]
  {
    WithoutFirst([k], k);
    assert [] + [n] == [n];
  }

  /** The old key's deletion failing after the file was written: the run stops with the
      new key in the file and both keys on the provider's side. */
  lemma OldKeyDeleteFailure(st: State, profile: string, force: bool, rp: Replies)
    requires rp.session.user in st.keys
    requires rp.session.accessKey.Some? && st.keys[rp.session.user] == [rp.session.accessKey.value.id]
    requires rp.issued.Some? && !rp.oldKeyDeleteSucceeds && DistinctNames(st.store) && HasSection(st.store, profile)
    ensures var r := RotateStep(st, profile, force, rp);
      && r.halt == Some(DeleteFailed(Some(rp.session.accessKey.value.id)))
      && r.state.keys == st.keys[rp.session.user := [rp.session.accessKey.value.id, rp.issued.value.id]]
      && Get(r.state.store, profile, AccessKeyIdOption) == Some(rp.issued.value.id)
      && Get(r.state.store, profile, SecretAccessKeyOption) == Some(rp.issued.value.secret)
  {
    var user := rp.session.user;
    var k := rp.session.accessKey.value.id;
    assert CreateKey(st.keys, user, rp.issued) == Some(st.keys[user := [k, rp.issued.value.id]]) by {
      assert [k] + [rp.issued.value.id] == [k, rp.issued.value.id];
    }
  }

  /** A run over two consecutive parts of the work list is the run over the first part,
      then, unless it halted, the run over the second part from where it ended. */
  lemma {:induction false} RunConcat(ps: seq<string>, qs: seq<string>, rs: seq<Replies>, ss: seq<Replies>,
                                     force: bool, st: State)
    requires |rs| == |ps| && |ss| == |qs|
    ensures var first := RunProfiles(ps, rs, force, st);
      RunProfiles(ps + qs, rs + ss, force, st) ==
        if first.halt.Some? then first else RunProfiles(qs, ss, force, first.state)
  {
    if ps == [] {
      assert ps + qs == qs && rs + ss == ss;
    } else {
      assert (ps + qs)[0] == ps[0] && (ps + qs)[1..] == ps[1..] + qs;
      assert (rs + ss)[0] == rs[0] && (rs + ss)[1..] == rs[1..] + ss;
      var r := RotateStep(st, ps[0], force, rs[0]);
      if r.halt.None? {
        RunConcat(ps[1..], qs, rs[1..], ss, force, r.state);
      }
    }
  }

  /** Hitting a profile with several keys and no force flag ends the run right there:
      no later profile is processed and the state is what the earlier profiles left. */
  lemma MultipleKeysStopsRun(ps: seq<string>, p: string, qs: seq<string>,
                             rs: seq<Replies>, rp: Replies, ss: seq<Replies>, st: State)
    requires |rs| == |ps| && |ss| == |qs|
    requires RunProfiles(ps, rs, false, st).halt.None?
    requires var mid := RunProfiles(ps, rs, false, st).state;
      rp.session.user in mid.keys && |mid.keys[rp.session.user]| > 1
    ensures RunProfiles(ps + [p] + qs, rs + [rp] + ss, false, st) ==
            StepResult(RunProfiles(ps, rs, false, st).state, Some(MultipleKeys(p)))
  {
    RunConcat(ps, [p] + qs, rs, [rp] + ss, false, st);
    assert ps + [p] + qs == ps + ([p] + qs);
    assert rs + [rp] + ss == rs + ([rp] + ss);
  }

  /** The exit status of a run stopped by several keys without force is 0, although the
      profiles after it were never rotated. */
  lemma MultipleKeysExitsZero(ps: seq<string>, p: string, qs: seq<string>,
                              rs: seq<Replies>, rp: Replies, ss: seq<Replies>, st: State)
    requires |rs| == |ps| && |ss| == |qs|
    requires RunProfiles(ps, rs, false, st).halt.None?
    requires var mid := RunProfiles(ps, rs, false, st).state;
      rp.session.user in mid.keys && |mid.keys[rp.session.user]| > 1
    ensures var r := RunProfiles(ps + [p] + qs, rs + [rp] + ss, false, st);
      ExitStatus(r.halt) == 0 && r.halt.Some? && r.state == RunProfiles(ps, rs, false, st).state
  {
    MultipleKeysStopsRun(ps, p, qs, rs, rp, ss, st);
  }

  /** A missing credentials file exits with status 1 and touches nothing. */
  lemma MissingFileExitsOne(st: State, profilesArg: Option<string>, force: bool, replies: seq<Replies>)
    requires RepliesFit(false, st.store, profilesArg, replies)
    ensures var r := RunMain(false, st, profilesArg, force, replies);
      ExitStatus(r.halt) == 1 && r.state == st
  {
  }

  /** Over a whole run, the file keeps its sections in order, a section whose name is not
      in the work list is unchanged, and no option but the two key options changes. */
  lemma {:induction false} RunStoreFrame(ps: seq<string>, rs: seq<Replies>, force: bool, st: State)
    requires |rs| == |ps|
    ensures var r := RunProfiles(ps, rs, force, st);
      && SameNames(r.state.store, st.store)
      && (forall j :: 0 <= j < |st.store| && st.store[j].name !in ps ==> r.state.store[j] == st.store[j])
      && (forall n, o :: o != AccessKeyIdOption && o != SecretAccessKeyOption ==>
                          Get(r.state.store, n, o) == Get(st.store, n, o))
  {
    if ps != [] {
      var step := RotateStep(st, ps[0], force, rs[0]);
      StepStoreFrame(st, ps[0], force, rs[0]);
      if step.halt.None? {
        RunStoreFrame(ps[1..], rs[1..], force, step.state);
        forall j | 0 <= j < |st.store| && st.store[j].name !in ps
          ensures RunProfiles(ps, rs, force, st).state.store[j] == st.store[j]
        {
          assert st.store[j].name != ps[0];
          assert step.state.store[j].name == st.store[j].name;
          assert st.store[j].name !in ps[1..];
        }
      }
    }
  }
}
