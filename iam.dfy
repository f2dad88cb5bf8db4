/** The provider's side of key rotation: each IAM user's access keys, and the
    list / create / delete operations the rotation script issues against them. */
module Iam {
  import opened Wrappers

  /** An access key pair as `create_access_key` returns it. */
  datatype AccessKey = AccessKey(id: string, secret: string)

  /** An IAM user: the account it belongs to and its user name. A user name is only
      unique within its account, and every call a session makes acts in the session's
      own account. */
  datatype User = User(account: string, name: string)

  /** For each IAM user, the ids of its access keys in the order `list_access_keys`
      reports them (the single page the script reads). */
  type Inventory = map<User, seq<string>>

  predicate Distinct(ids: seq<string>)
  {
    forall i, j :: 0 <= i < j < |ids| ==> ids[i] != ids[j]
  }

  /** The ids left after a deletion of `id`. */
  function Without(ids: seq<string>, id: string): (r: seq<string>)
    ensures multiset(r) == multiset(ids)[id := 0]
    ensures id !in r
    ensures |r| <= |ids|
  {
    if ids == [] then []
    else
      assert ids == [ids[0]] + ids[1..];
      (if ids[0] == id then [] else [ids[0]]) + Without(ids[1..], id)
  }

  /** Deleting the key at position `k` of a duplicate-free inventory removes exactly
      that position and keeps the order of the rest. */
  lemma {:induction false} WithoutAt(ids: seq<string>, k: nat)
    requires Distinct(ids) && k < |ids|
    ensures Without(ids, ids[k]) == ids[..k] + ids[k + 1..]
  {
    var rest := ids[1..];
    DistinctTail(ids);
    if k == 0 {
      WithoutAbsent(rest, ids[0]);
      assert Without(ids, ids[0]) == [] + Without(rest, ids[0]);
    } else {
      assert rest[k - 1] == ids[k] && ids[0] != ids[k];
      WithoutAt(rest, k - 1);
      assert Without(ids, ids[k]) == [ids[0]] + Without(rest, ids[k]);
      DropShift(ids, k);
    }
  }

  /** The tail of a duplicate-free inventory is duplicate-free and does not hold its head. */
  lemma DistinctTail(ids: seq<string>)
    requires Distinct(ids) && |ids| > 0
    ensures Distinct(ids[1..]) && ids[0] !in ids[1..]
  {
    var rest := ids[1..];
    forall j | 0 <= j < |rest| ensures rest[j] != ids[0] {
      assert rest[j] == ids[j + 1];
    }
    forall i, j | 0 <= i < j < |rest| ensures rest[i] != rest[j] {
      assert rest[i] == ids[i + 1] && rest[j] == ids[j + 1];
    }
  }

  /** Dropping position `k` is keeping the head and dropping position `k - 1` of the tail. */
  lemma DropShift(ids: seq<string>, k: nat)
    requires 0 < k < |ids|
    ensures [ids[0]] + (ids[1..][..k - 1] + ids[1..][k..]) == ids[..k] + ids[k + 1..]
  {
    assert ids[1..][..k - 1] == ids[1..k];
    assert ids[1..][k..] == ids[k + 1..];
    assert [ids[0]] + ids[1..k] == ids[..k];
  }

  /** Deleting an id that is not there changes nothing. */
  lemma {:induction false} WithoutAbsent(ids: seq<string>, id: string)
    requires id !in ids
    ensures Without(ids, id) == ids
  {
    if ids != [] {
      WithoutAbsent(ids[1..], id);
      assert [ids[0]] + ids[1..] == ids;
    }
  }

  /** Deletion works part by part. */
  lemma {:induction false} WithoutConcat(a: seq<string>, b: seq<string>, id: string)
    ensures Without(a + b, id) == Without(a, id) + Without(b, id)
  {
    if a == [] {
      assert a + b == b;
    } else {
      assert (a + b)[0] == a[0] && (a + b)[1..] == a[1..] + b;
      WithoutConcat(a[1..], b, id);
    }
  }

  /** Deleting the first id, when it occurs nowhere else, leaves the rest as it was. */
  lemma WithoutFirst(ids: seq<string>, id: string)
    requires |ids| > 0 && ids[0] == id && id !in ids[1..]
    ensures Without(ids, id) == ids[1..]
  {
    WithoutAbsent(ids[1..], id);
  }

  /** Deletion keeps a duplicate-free inventory duplicate-free. */
  lemma {:induction false} WithoutDistinct(ids: seq<string>, id: string)
    requires Distinct(ids)
    ensures Distinct(Without(ids, id))
  {
    if ids != [] {
      var rest := Without(ids[1..], id);
      WithoutDistinct(ids[1..], id);
      if ids[0] != id {
        assert ids[0] !in ids[1..];
        assert ids[0] !in multiset(rest) by {
          assert multiset(rest)[ids[0]] <= multiset(ids[1..])[ids[0]];
        }
        var r := [ids[0]] + rest;
        forall i, j | 0 <= i < j < |r| ensures r[i] != r[j] {
          if i == 0 {
            assert r[j] == rest[j - 1] && rest[j - 1] in rest;
          } else {
            assert r[i] == rest[i - 1] && r[j] == rest[j - 1];
          }
        }
      }
    }
  }

  /** The first id, in inventory order, that differs from the session's access key
      (`None` when the session's key is not known compares unequal to every id);
      `None` when there is no such id. */
  function FirstOther(ids: seq<string>, current: Option<string>): (r: Option<string>)
    ensures r.None? <==> forall j :: 0 <= j < |ids| ==> Some(ids[j]) == current
    ensures r.Some? ==> Some(r.value) != current
    ensures r.Some? ==> exists k :: 0 <= k < |ids| && ids[k] == r.value &&
                                    forall j :: 0 <= j < k ==> Some(ids[j]) == current
  {
    if ids == [] then None
    else if Some(ids[0]) != current then Some(ids[0])
    else
      var rest := FirstOther(ids[1..], current);
      assert forall j :: 1 <= j < |ids| ==> ids[j] == ids[1..][j - 1];
      if rest.Some? then
        ghost var k' :| 0 <= k' < |ids[1..]| && ids[1..][k'] == rest.value &&
                        forall j :: 0 <= j < k' ==> Some(ids[1..][j]) == current;
        assert ids[k' + 1] == rest.value;
        rest
      else rest
  }

  /** With two or more distinct keys one of them is not the session's. */
  lemma FirstOtherExists(ids: seq<string>, current: Option<string>)
    requires Distinct(ids) && |ids| > 1
    ensures FirstOther(ids, current).Some?
  {
    assert ids[0] != ids[1];
  }

  /** `create_access_key` for `user`: `issued` is what the provider hands out, `None`
      when it rejects the request. The new id is appended to the user's keys. */
  function CreateKey(inv: Inventory, user: User, issued: Option<AccessKey>): Option<Inventory>
  {
    if user in inv && issued.Some? then Some(inv[user := inv[user] + [issued.value.id]]) else None
  }

  /** A creation goes through exactly when the user exists and a key is issued. It then
      adds the issued id after the user's existing keys, which all stay in order, and
      leaves every other user's keys as they were. */
  lemma CreateKeyEffect(inv: Inventory, user: User, issued: Option<AccessKey>)
    ensures CreateKey(inv, user, issued).Some? <==> user in inv && issued.Some?
    ensures CreateKey(inv, user, issued).Some? ==> var r := CreateKey(inv, user, issued).value;
      && r.Keys == inv.Keys
      && |r[user]| == |inv[user]| + 1
      && r[user][..|inv[user]|] == inv[user] && r[user][|inv[user]|] == issued.value.id
      && (forall x :: x in r[user] <==> x in inv[user] || x == issued.value.id)
      && (forall u :: u in inv && u != user ==> r[u] == inv[u])
  {
    if user in inv && issued.Some? {
      var r := CreateKey(inv, user, issued).value;
      assert r[user][..|inv[user]|] == inv[user];
    }
  }

  /** `delete_access_key` for `user`, wrapped in the script's retry policy: `succeeds`
      abstracts whether a try succeeds before the retries run out. It fails when no
      key id is given, the user is unknown or the key is not the user's. */
  function DeleteKey(inv: Inventory, user: User, id: Option<string>, succeeds: bool): Option<Inventory>
  {
    if succeeds && id.Some? && user in inv && id.value in inv[user] then
      Some(inv[user := Without(inv[user], id.value)])
    else None
  }

  /** A deletion goes through exactly when it succeeds, a key id is given and the user
      exists and owns that key. It then removes every copy of the key from the user's
      keys, so the user ends up with fewer keys; the user's other keys stay, nothing is
      added, and every other user's keys are as they were. */
  lemma DeleteKeyEffect(inv: Inventory, user: User, id: Option<string>, succeeds: bool)
    ensures DeleteKey(inv, user, id, succeeds).Some? <==>
              succeeds && id.Some? && user in inv && id.value in inv[user]
    ensures DeleteKey(inv, user, id, succeeds).Some? ==> var r := DeleteKey(inv, user, id, succeeds).value;
      && r.Keys == inv.Keys
      && id.value !in r[user] && |r[user]| < |inv[user]|
      && multiset(r[user]) == multiset(inv[user])[id.value := 0]
      && (forall x :: x in r[user] <==> x in inv[user] && x != id.value)
      && (forall u :: u in inv && u != user ==> r[u] == inv[u])
  {
    if DeleteKey(inv, user, id, succeeds).Some? {
      var ids := inv[user];
      var rest := Without(ids, id.value);
      assert multiset(ids)[id.value] > 0;
      assert |multiset(rest)| < |multiset(ids)|;
      forall x ensures x in rest <==> x in ids && x != id.value {
        assert x in rest <==> multiset(rest)[x] > 0;
        assert x in ids <==> multiset(ids)[x] > 0;
      }
    }
  }

  /** The provider's key store, as the script sees it through its sessions. */
  class Account {
    var keys: Inventory

    constructor (keys: Inventory)
      ensures this.keys == keys
    {
      this.keys := keys;
    }

    /** `getAccessKeys`: the first (and only modelled) page of `list_access_keys`;
        `None` when the provider does not know the user. */
    method GetAccessKeys(user: User) returns (r: Option<seq<string>>)
      ensures r.Some? <==> user in keys
      ensures r.Some? ==> r.value == keys[user]
    {
      r := if user in keys then Some(keys[user]) else None;
    }

    /** `createAccessKey`: returns the new key, or `None` when the provider rejects the
        request (the script logs the error and returns nothing). */
    method CreateAccessKey(user: User, issued: Option<AccessKey>) returns (r: Option<AccessKey>)
      modifies this
      ensures r == (if CreateKey(old(keys), user, issued).Some? then issued else None)
      ensures keys == if r.Some? then CreateKey(old(keys), user, issued).value else old(keys)
    {
      var after := CreateKey(keys, user, issued);
      if after.Some? {
        keys := after.value;
        r := issued;
      } else {
        r := None;
      }
    }

    /** `deleteAccessKey`: deletes the key if the request (with its retries) succeeds. */
    method DeleteAccessKey(user: User, id: Option<string>, succeeds: bool) returns (ok: bool)
      modifies this
      ensures ok == DeleteKey(old(keys), user, id, succeeds).Some?
      ensures keys == if ok then DeleteKey(old(keys), user, id, succeeds).value else old(keys)
    {
      var after := DeleteKey(keys, user, id, succeeds);
      ok := after.Some?;
      if ok {
        keys := after.value;
      }
    }
  }
}
