/** The IAM access-key rotation run: the work list of profiles, then for each profile
    inventory → single-key rule (or forced deletion of the unused key) → new key →
    credentials file rewritten → old key deleted through a session on the new key. */
module KeyRotation {
  import opened Wrappers
  import opened Strings
  import opened Iam
  import opened CredentialsStore

  /** What a profile's session reports: the user it is signed in as (the session's account
      and `iam.CurrentUser().user_name`) and `session.get_credentials()` (`None` when its
      access key is missing). */
  datatype Session = Session(user: User, accessKey: Option<AccessKey>)

  /** The provider's behaviour while one profile is rotated: its session, the key
      `create_access_key` hands out (`None` when the request is rejected), and whether
      the forced deletion of the unused key and the final deletion of the old key
      succeed within the retry policy. */
  datatype Replies = Replies(session: Session, issued: Option<AccessKey>,
                             unusedKeyDeleteSucceeds: bool, oldKeyDeleteSucceeds: bool)

  /** The `oldCredentials` dictionary: `UserName` (qualified by the account of the session
      every call is made through), then `AccessKeyId` and `SecretAccessKey` once they are
      set. */
  datatype OldCredentials = OldCredentials(user: User, accessKeyId: Option<string>,
                                           secretAccessKey: Option<string>)

  /** Why a run stops. Every one ends the whole run: `MultipleKeys` is the script's
      `exit()`, the others are exceptions nothing catches. */
  datatype Halt =
    | CredentialsFileMissing             // the credentials file does not exist
    | MissingAccessKeyId(section: string) // getProfiles: a section lacks aws_access_key_id
    | DuplicateSection                   // config.read: a section name occurs twice
    | NoSuchUser(user: User)             // list_access_keys does not know the user
    | MultipleKeys(profile: string)      // more than one key and no force flag
    | DeleteFailed(id: Option<string>)   // delete_access_key failed (None: no id to send)
    | NoSessionKey                       // verifyProfilesConfiguration found no access key
    | CreateFailed                       // createAccessKey returned nothing
    | NoSuchSection(profile: string)     // updateCredentialsFile: config.set raised

  /** The local file's sections and the provider's keys. */
  datatype State = State(store: Store, keys: Inventory)

  datatype StepResult = StepResult(state: State, halt: Option<Halt>)

  /** The process exit status: `exit()` exits with status 0, an uncaught exception with 1. */
  function ExitStatus(halt: Option<Halt>): (code: int)
    ensures code == 0 <==> halt.None? || halt.value.MultipleKeys?
    ensures code == 0 || code == 1
  {
    match halt
    case None => 0
    case Some(MultipleKeys(_)) => 0
    case Some(_) => 1
  }

  /** The session's access-key id, as `session.get_credentials().access_key`. */
  function SessionKeyId(session: Session): Option<string>
  {
    if session.accessKey.Some? then Some(session.accessKey.value.id) else None
  }

  /** The profiles to rotate: fails when the credentials file is missing; otherwise the
      literal comma split of `--profiles` when it is given, else `getProfiles`, whose
      `config.read` rejects a file with a repeated section name. */
  function WorkList(present: bool, store: Store, profilesArg: Option<string>): (r: Result<seq<string>, Halt>)
    ensures !present ==> r == Err(CredentialsFileMissing)
    ensures present && profilesArg.Some? ==> r.Ok? && |r.value| >= 1 && Join(r.value, ',') == profilesArg.value &&
                                             forall k :: 0 <= k < |r.value| ==> ',' !in r.value[k]
    ensures present && profilesArg.None? && !DistinctNames(store) ==> r == Err(DuplicateSection)
    ensures present && profilesArg.None? && DistinctNames(store) ==>
              (r.Ok? <==> GetProfiles(store).Ok?) &&
              (r.Ok? ==> r.value == GetProfiles(store).value) &&
              (r.Err? ==> r.error == MissingAccessKeyId(GetProfiles(store).error))
  {
    if !present then Err(CredentialsFileMissing)
    else if profilesArg.Some? then Ok(Split(profilesArg.value, ','))
    else if !DistinctNames(store) then Err(DuplicateSection)
    else
      match GetProfiles(store)
      case Err(section) => Err(MissingAccessKeyId(section))
      case Ok(profiles) => Ok(profiles)
  }

  /** `verifyProfilesConfiguration`: fails when the session has no access key; otherwise
      the old credentials become the session's key id and secret, whatever they held. */
  function VerifyProfilesConfiguration(session: Session, recorded: OldCredentials): (r: Result<OldCredentials, Halt>)
    ensures r.Err? <==> session.accessKey.None?
    ensures r.Err? ==> r.error == NoSessionKey
    ensures r.Ok? ==> r.value.user == recorded.user
    ensures r.Ok? ==> r.value.accessKeyId == SessionKeyId(session) && r.value.accessKeyId.Some?
    ensures r.Ok? ==> r.value.secretAccessKey == Some(session.accessKey.value.secret)
  {
    match session.accessKey
    case None => Err(NoSessionKey)
    case Some(key) => Ok(recorded.(accessKeyId := Some(key.id), secretAccessKey := Some(key.secret)))
  }

  /** One pass of the loop body for `profile`, in the order the script runs it: the
      inventory, the single-key rule, the forced deletion of the unused key, then the
      key replacement. No IAM user is created or removed, the file keeps its sections,
      the file changes only by the new key being written into the profile's section, and
      a pass that completes had a session key and wrote the new one. */
  function RotateStep(st: State, profile: string, force: bool, rp: Replies): (r: StepResult)
    ensures r.state.keys.Keys == st.keys.Keys
    ensures SameNames(r.state.store, st.store)
    ensures r.state.store != st.store ==>
              rp.issued.Some? && Some(r.state.store) == WithCredentials(st.store, profile, rp.issued.value)
    ensures r.halt.None? ==> rp.session.accessKey.Some? && rp.issued.Some? &&
                             Some(r.state.store) == WithCredentials(st.store, profile, rp.issued.value)
  {
    var user := rp.session.user;
    if user !in st.keys then StepResult(st, Some(NoSuchUser(user)))
    else if |st.keys[user]| > 1 && !force then StepResult(st, Some(MultipleKeys(profile)))
    else if |st.keys[user]| > 1 then
      var unused := FirstOther(st.keys[user], SessionKeyId(rp.session));
      match DeleteKey(st.keys, user, unused, rp.unusedKeyDeleteSucceeds)
      case None => StepResult(st, Some(DeleteFailed(unused)))
      case Some(keys1) => ReplaceKey(State(st.store, keys1), profile, OldCredentials(user, unused, None), rp)
    else ReplaceKey(st, profile, OldCredentials(user, None, None), rp)
  }

  /** The end of the loop body: read the session's key into the old credentials, create the
      new key, write it into the file, then delete the old key through a session built from
      the new one. The file changes only by the new key being written, and only a
      replacement that completes got that far. */
  function ReplaceKey(st: State, profile: string, recorded: OldCredentials, rp: Replies): (r: StepResult)
    ensures r.state.keys.Keys == st.keys.Keys
    ensures SameNames(r.state.store, st.store)
    ensures r.state.store != st.store ==>
              rp.issued.Some? && Some(r.state.store) == WithCredentials(st.store, profile, rp.issued.value)
    ensures r.halt.None? ==> rp.session.accessKey.Some? && rp.issued.Some? &&
                             Some(r.state.store) == WithCredentials(st.store, profile, rp.issued.value)
  {
    match VerifyProfilesConfiguration(rp.session, recorded)
    case Err(h) => StepResult(st, Some(h))
    case Ok(verified) =>
      match CreateKey(st.keys, recorded.user, rp.issued)
      case None => StepResult(st, Some(CreateFailed))
      case Some(keys2) =>
        match WithCredentials(st.store, profile, rp.issued.value)
        case None =>
          var h := if DistinctNames(st.store) then NoSuchSection(profile) else DuplicateSection;
          StepResult(State(st.store, keys2), Some(h))
        case Some(store2) =>
          match DeleteKey(keys2, verified.user, verified.accessKeyId, rp.oldKeyDeleteSucceeds)
          case None => StepResult(State(store2, keys2), Some(DeleteFailed(verified.accessKeyId)))
          case Some(keys3) => StepResult(State(store2, keys3), None)
  }

  /** The `for profile in PROFILES` loop: profiles in work-list order, each with the
      provider's replies at the same position; the first halt ends the run. No IAM user
      is created or removed and the file keeps its sections in order. */
  function RunProfiles(profiles: seq<string>, replies: seq<Replies>, force: bool, st: State): (r: StepResult)
    requires |replies| == |profiles|
    ensures r.state.keys.Keys == st.keys.Keys
    ensures SameNames(r.state.store, st.store)
    decreases |profiles|
  {
    if profiles == [] then StepResult(st, None)
    else
      var r := RotateStep(st, profiles[0], force, replies[0]);
      if r.halt.Some? then r else RunProfiles(profiles[1..], replies[1..], force, r.state)
  }

  /** The run from position `i` is the step at `i` followed, unless it halts, by the
      run from `i + 1`. */
  lemma RunProfilesAt(profiles: seq<string>, replies: seq<Replies>, force: bool, st: State, i: nat)
    requires |replies| == |profiles| && i < |profiles|
    ensures var r := RotateStep(st, profiles[i], force, replies[i]);
      RunProfiles(profiles[i..], replies[i..], force, st) ==
        if r.halt.Some? then r else RunProfiles(profiles[i + 1..], replies[i + 1..], force, r.state)
  {
    assert profiles[i..][0] == profiles[i] && replies[i..][0] == replies[i];
    assert profiles[i..][1..] == profiles[i + 1..] && replies[i..][1..] == replies[i + 1..];
  }

  /** The provider supplies one set of replies per entry of the work list. */
  predicate RepliesFit(present: bool, store: Store, profilesArg: Option<string>, replies: seq<Replies>)
  {
    WorkList(present, store, profilesArg).Ok? ==> |replies| == |WorkList(present, store, profilesArg).value|
  }

  /** `main` from line 150 on: the work list, then the loop. A missing file, or one that
      `getProfiles` cannot read, stops the run before any profile is touched. */
  function RunMain(present: bool, st: State, profilesArg: Option<string>, force: bool, replies: seq<Replies>): (r: StepResult)
    requires RepliesFit(present, st.store, profilesArg, replies)
    ensures WorkList(present, st.store, profilesArg).Err? ==>
              r == StepResult(st, Some(WorkList(present, st.store, profilesArg).error))
    ensures !present ==> r == StepResult(st, Some(CredentialsFileMissing))
    ensures r.state.keys.Keys == st.keys.Keys
    ensures SameNames(r.state.store, st.store)
  {
    match WorkList(present, st.store, profilesArg)
    case Err(h) => StepResult(st, Some(h))
    case Ok(profiles) => RunProfiles(profiles, replies, force, st)
  }

  /** The loop body for one profile, on the file and the account in place. */
  method RotateProfile(file: CredentialsFile, account: Account, profile: string, force: bool, rp: Replies)
    returns (halt: Option<Halt>)
    modifies file, account
    ensures file.present == old(file.present)
    ensures StepResult(State(file.sections, account.keys), halt) ==
            RotateStep(State(old(file.sections), old(account.keys)), profile, force, rp)
  {
    var oldCredentials := OldCredentials(rp.session.user, None, None);
    var iamKeys := account.GetAccessKeys(oldCredentials.user);
    if iamKeys.None? {
      return Some(NoSuchUser(oldCredentials.user));
    }
    if |iamKeys.value| > 1 && !force {
      return Some(MultipleKeys(profile));
    }
    if |iamKeys.value| > 1 && force {
      var unused := FirstOther(iamKeys.value, SessionKeyId(rp.session));
      oldCredentials := oldCredentials.(accessKeyId := unused);
      var deleted := account.DeleteAccessKey(oldCredentials.user, oldCredentials.accessKeyId,
                                             rp.unusedKeyDeleteSucceeds);
      if !deleted {
        return Some(DeleteFailed(unused));
      }
    }
    var verified := VerifyProfilesConfiguration(rp.session, oldCredentials);
    if verified.Err? {
      return Some(verified.error);
    }
    oldCredentials := verified.value;
    var newCredentials := account.CreateAccessKey(oldCredentials.user, rp.issued);
    if newCredentials.None? {
      return Some(CreateFailed);
    }
    var written := file.UpdateCredentialsFile(profile, newCredentials.value);
    if !written {
      return Some(if DistinctNames(file.sections) then NoSuchSection(profile) else DuplicateSection);
    }
    var deleted := account.DeleteAccessKey(oldCredentials.user, oldCredentials.accessKeyId,
                                           rp.oldKeyDeleteSucceeds);
    if !deleted {
      return Some(DeleteFailed(oldCredentials.accessKeyId));
    }
    return None;
  }

  /** `main`: checks the file, builds the work list and rotates each profile in turn. */
  method RotateKeys(file: CredentialsFile, account: Account, profilesArg: Option<string>, force: bool,
                    replies: seq<Replies>) returns (halt: Option<Halt>)
    requires RepliesFit(file.present, file.sections, profilesArg, replies)
    modifies file, account
    ensures file.present == old(file.present)
    ensures StepResult(State(file.sections, account.keys), halt) ==
            RunMain(old(file.present), State(old(file.sections), old(account.keys)), profilesArg, force, replies)
  {
    if !file.present {
      return Some(CredentialsFileMissing);
    }
    var profiles: seq<string>;
    if profilesArg.None? {
      if !DistinctNames(file.sections) {
        return Some(DuplicateSection);
      }
      var found := GetProfiles(file.sections);
      if found.Err? {
        return Some(MissingAccessKeyId(found.error));
      }
      profiles := found.value;
    } else {
      profiles := Split(profilesArg.value, ',');
    }
    assert RunMain(old(file.present), State(file.sections, account.keys), profilesArg, force, replies) ==
           RunProfiles(profiles, replies, force, State(file.sections, account.keys));
    halt := RotateProfiles(file, account, profiles, force, replies);
  }

  /** The `for profile in PROFILES` loop, stopping at the first halt. */
  method RotateProfiles(file: CredentialsFile, account: Account, profiles: seq<string>, force: bool,
                        replies: seq<Replies>) returns (halt: Option<Halt>)
    requires |replies| == |profiles|
    modifies file, account
    ensures file.present == old(file.present)
    ensures StepResult(State(file.sections, account.keys), halt) ==
            RunProfiles(profiles, replies, force, State(old(file.sections), old(account.keys)))
  {
    ghost var start := State(file.sections, account.keys);
    var i := 0;
    while i < |profiles|
      invariant 0 <= i <= |profiles|
      invariant file.present == old(file.present)
      invariant RunProfiles(profiles[i..], replies[i..], force, State(file.sections, account.keys)) ==
                RunProfiles(profiles, replies, force, start)
    {
      RunProfilesAt(profiles, replies, force, State(file.sections, account.keys), i);
      halt := RotateProfile(file, account, profiles[i], force, replies[i]);
      if halt.Some? {
        return;
      }
      i := i + 1;
    }
    halt := None;
  }
}
