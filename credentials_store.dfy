/** The local credentials file: sections in file order, each a map from option name to
    value, and the reads and writes the rotation script makes of it. */
module CredentialsStore {
  import opened Wrappers
  import opened Iam

  const AccessKeyIdOption := "aws_access_key_id"
  const SecretAccessKeyOption := "aws_secret_access_key"

  datatype Section = Section(name: string, options: map<string, string>)

  /** The parsed file: its sections in file order. */
  type Store = seq<Section>

  predicate HasSection(store: Store, name: string)
  {
    exists j :: 0 <= j < |store| && store[j].name == name
  }

  /** What `config.read` accepts: the strict parser raises `DuplicateSectionError` when
      a section name occurs twice. */
  predicate DistinctNames(store: Store)
  {
    forall i, j :: 0 <= i < j < |store| ==> store[i].name != store[j].name
  }

  /** Two stores with the same section names in the same order. */
  predicate SameNames(a: Store, b: Store)
  {
    |a| == |b| && forall j :: 0 <= j < |a| ==> a[j].name == b[j].name
  }

  /** Where the first section called `name` sits; in a file the parser accepts
      (`DistinctNames`) it is the only one. */
  function IndexOf(store: Store, name: string): (r: Option<nat>)
    ensures r.None? <==> !HasSection(store, name)
    ensures r.Some? ==> r.value < |store| && store[r.value].name == name
    ensures r.Some? ==> forall j :: 0 <= j < r.value ==> store[j].name != name
  {
    if store == [] then None
    else if store[0].name == name then Some(0)
    else
      var rest := IndexOf(store[1..], name);
      assert forall j :: 1 <= j < |store| ==> store[j] == store[1..][j - 1];
      match rest
      case None => None
      case Some(i) => Some(i + 1)
  }

  /** Section lookup depends on the section names only. */
  lemma {:induction false} IndexOfSameNames(a: Store, b: Store, name: string)
    requires SameNames(a, b)
    ensures IndexOf(a, name) == IndexOf(b, name)
  {
    if a != [] {
      IndexOfSameNames(a[1..], b[1..], name);
    }
  }

  /** `config[name][option]` as a reader of the file sees it. */
  function Get(store: Store, name: string, option: string): Option<string>
  {
    match IndexOf(store, name)
    case None => None
    case Some(i) => if option in store[i].options then Some(store[i].options[option]) else None
  }

  /** `config.set(name, option, value)`: `None` when there is no such section
      (configparser raises `NoSectionError`). Otherwise the option reads back as
      `value`, the section's other options are as they were and every other section
      is unchanged. */
  function SetOption(store: Store, name: string, option: string, value: string): (r: Option<Store>)
    ensures r.Some? <==> HasSection(store, name)
    ensures r.Some? ==> SameNames(r.value, store)
    ensures r.Some? ==> Get(r.value, name, option) == Some(value)
    ensures r.Some? ==> var i := IndexOf(store, name).value;
      && r.value[i].options == store[i].options[option := value]
      && forall j :: 0 <= j < |store| && j != i ==> r.value[j] == store[j]
  {
    match IndexOf(store, name)
    case None => None
    case Some(i) =>
      var updated := store[i := store[i].(options := store[i].options[option := value])];
      assert SameNames(updated, store);
      IndexOfSameNames(updated, store, name);
      Some(updated)
  }

  /** `updateCredentialsFile` on the parsed file: `None` when `config.read` rejects the
      file or the first `config.set` raises. Otherwise the profile's key id and secret
      become the new key's, and the section's other options and every other section stay
      as they were. */
  function WithCredentials(store: Store, profile: string, key: AccessKey): (r: Option<Store>)
    ensures r.Some? <==> DistinctNames(store) && HasSection(store, profile)
    ensures r.Some? ==> SameNames(r.value, store)
    ensures r.Some? ==> Get(r.value, profile, AccessKeyIdOption) == Some(key.id)
    ensures r.Some? ==> Get(r.value, profile, SecretAccessKeyOption) == Some(key.secret)
    ensures r.Some? ==> var i := IndexOf(store, profile).value;
      && r.value[i].options == store[i].options[AccessKeyIdOption := key.id][SecretAccessKeyOption := key.secret]
      && forall j :: 0 <= j < |store| && j != i ==> r.value[j] == store[j]
  {
    if !DistinctNames(store) then None
    else
      match SetOption(store, profile, AccessKeyIdOption, key.id)
      case None => None
      case Some(withId) =>
        var i := IndexOf(store, profile).value;
        assert withId[i].name == profile;
        IndexOfSameNames(withId, store, profile);
        var r := SetOption(withId, profile, SecretAccessKeyOption, key.secret);
        assert Get(r.value, profile, AccessKeyIdOption) == Some(key.id) by {
          IndexOfSameNames(r.value, store, profile);
        }
        r
  }

  /** What a reader sees after `WithCredentials`: every option other than the profile's
      two key options reads as before. */
  lemma WithCredentialsGet(store: Store, profile: string, key: AccessKey, n: string, o: string)
    requires DistinctNames(store) && HasSection(store, profile)
    requires n != profile || (o != AccessKeyIdOption && o != SecretAccessKeyOption)
    ensures Get(WithCredentials(store, profile, key).value, n, o) == Get(store, n, o)
  {
    var r := WithCredentials(store, profile, key).value;
    IndexOfSameNames(r, store, n);
  }

  /** `getProfiles`: the names of the sections whose `aws_access_key_id` is non-empty,
      in file order. A section without that option makes the lookup fail (`KeyError`);
      the error names the first such section. */
  function GetProfiles(store: Store): (r: Result<seq<string>, string>)
    ensures r.Err? <==> exists j :: 0 <= j < |store| && AccessKeyIdOption !in store[j].options
    ensures r.Err? ==> exists j :: 0 <= j < |store| && store[j].name == r.error &&
                                   AccessKeyIdOption !in store[j].options &&
                                   forall k :: 0 <= k < j ==> AccessKeyIdOption in store[k].options
    ensures r.Ok? ==> forall p :: p in r.value <==>
                        exists j :: 0 <= j < |store| && store[j].name == p && store[j].options[AccessKeyIdOption] != ""
    ensures r.Ok? ==> |r.value| <= |store|
  {
    if store == [] then Ok([])
    else if AccessKeyIdOption !in store[0].options then Err(store[0].name)
    else
      var rest := GetProfiles(store[1..]);
      assert forall j :: 1 <= j < |store| ==> store[j] == store[1..][j - 1];
      match rest
      case Err(e) =>
        ghost var j :| 0 <= j < |store[1..]| && store[1..][j].name == e &&
                       AccessKeyIdOption !in store[1..][j].options &&
                       forall k :: 0 <= k < j ==> AccessKeyIdOption in store[1..][k].options;
        assert store[j + 1].name == e && AccessKeyIdOption !in store[j + 1].options;
        Err(e)
      case Ok(names) =>
        Ok(if store[0].options[AccessKeyIdOption] != "" then [store[0].name] + names else names)
  }

  /** Profiles of two consecutive parts of a file: the first failure wins, otherwise
      the lists are concatenated. */
  function AppendProfiles(x: Result<seq<string>, string>, y: Result<seq<string>, string>): Result<seq<string>, string>
  {
    match x
    case Err(e) => Err(e)
    case Ok(xs) =>
      match y
      case Err(e) => Err(e)
      case Ok(ys) => Ok(xs + ys)
  }

  /** The file enumerated in two parts gives the first part's profiles, then the second's:
      `getProfiles` keeps section order. */
  lemma {:induction false} GetProfilesConcat(a: Store, b: Store)
    ensures GetProfiles(a + b) == AppendProfiles(GetProfiles(a), GetProfiles(b))
  {
    if a == [] {
      assert a + b == b;
      match GetProfiles(b)
      case Err(_) =>
      case Ok(ys) => assert [] + ys == ys;
    } else {
      var ab := a + b;
      assert ab[0] == a[0] && ab[1..] == a[1..] + b;
      GetProfilesConcat(a[1..], b);
      if AccessKeyIdOption in a[0].options {
        var head: seq<string> := if a[0].options[AccessKeyIdOption] != "" then [a[0].name] else [];
        match GetProfiles(a[1..])
        case Err(_) =>
        case Ok(x) =>
          assert head == [] ==> head + x == x;
          assert GetProfiles(a) == Ok(head + x);
          match GetProfiles(b)
          case Err(_) =>
          case Ok(y) =>
            assert head == [] ==> head + (x + y) == x + y;
            assert GetProfiles(ab) == Ok(head + (x + y));
            assert head + (x + y) == (head + x) + y;
      }
    }
  }

  /** With distinct section names, every profile is listed at most once. */
  lemma {:induction false} GetProfilesDistinct(store: Store)
    requires DistinctNames(store)
    requires GetProfiles(store).Ok?
    ensures Distinct(GetProfiles(store).value)
  {
    if store != [] {
      assert DistinctNames(store[1..]) by {
        forall i, j | 0 <= i < j < |store[1..]| ensures store[1..][i].name != store[1..][j].name {
          assert store[1..][i] == store[i + 1] && store[1..][j] == store[j + 1];
        }
      }
      GetProfilesDistinct(store[1..]);
      var names := GetProfiles(store[1..]).value;
      if store[0].options[AccessKeyIdOption] != "" {
        assert forall j :: 1 <= j < |store| ==> store[j] == store[1..][j - 1];
        assert store[0].name !in names;
        var r := [store[0].name] + names;
        forall i, j | 0 <= i < j < |r| ensures r[i] != r[j] {
          if i == 0 {
            assert r[j] == names[j - 1] && names[j - 1] in names;
          } else {
            assert r[i] == names[i - 1] && r[j] == names[j - 1];
          }
        }
      }
    }
  }

  /** The credentials file at its well-known path. `present` is whether it exists. */
  class CredentialsFile {
    var present: bool
    var sections: Store

    constructor (present: bool, sections: Store)
      ensures this.present == present && this.sections == sections
    {
      this.present := present;
      this.sections := sections;
    }

    /** `config.set(name, option, value)`; `ok` is false when configparser raises. */
    method Set(name: string, option: string, value: string) returns (ok: bool)
      modifies this
      ensures present == old(present)
      ensures ok == HasSection(old(sections), name)
      ensures sections == if ok then SetOption(old(sections), name, option, value).value else old(sections)
    {
      var r := SetOption(sections, name, option, value);
      ok := r.Some?;
      if ok {
        sections := r.value;
      }
    }

    /** `updateCredentialsFile`: the file is read, both options of `profile` are set,
        then the file is written back. When the read rejects the file, or the section is
        missing so that the first `set` raises, nothing is written. */
    method UpdateCredentialsFile(profile: string, key: AccessKey) returns (ok: bool)
      modifies this
      ensures present == old(present)
      ensures ok == (DistinctNames(old(sections)) && HasSection(old(sections), profile))
      ensures sections == if ok then WithCredentials(old(sections), profile, key).value else old(sections)
    {
      if !DistinctNames(sections) {
        return false;
      }
      ok := Set(profile, AccessKeyIdOption, key.id);
      if ok {
        ok := Set(profile, SecretAccessKeyOption, key.secret);
        assert ok;
      }
    }
  }
}
