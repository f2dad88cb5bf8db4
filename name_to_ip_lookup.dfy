/** `rlookup` of `ec2_name_to_ip_lookup.py`: the private addresses of the instances
    whose `Name` tag is the requested name, and the count check of its `__main__`.
    The instance list is what the SDK's running-instance filter hands back. */
module NameToIpLookup {
  import opened Wrappers
  import opened Ec2

  /** An instance as `rlookup` sees it: `i.tags` is `None` when the instance has no tags. */
  datatype Instance = Instance(privateIpAddress: string, tags: Option<seq<Tag>>)

  /** A tag `rlookup` reports a hit for. */
  predicate Matching(t: Tag, name: string)
  {
    t.key == NameKey && t.value == name
  }

  /** The tags `rlookup` walks through: none when `i.tags` is missing or empty. */
  function TagsOf(inst: Instance): seq<Tag>
  {
    if inst.tags.Some? then inst.tags.value else []
  }

  /** The instance carries a matching tag. */
  predicate HasMatchingTag(inst: Instance, name: string)
  {
    exists j :: 0 <= j < |TagsOf(inst)| && Matching(TagsOf(inst)[j], name)
  }

  /** The positions of `tags` that hold a matching tag. */
  function MatchingIndices(tags: seq<Tag>, name: string): set<int>
  {
    set j | 0 <= j < |tags| && Matching(tags[j], name)
  }

  /** What an instance adds to the output for its first `n` tags: its address once per
      matching tag. */
  function HitsUpTo(ip: string, tags: seq<Tag>, n: nat, name: string): (r: seq<string>)
    requires n <= |tags|
    ensures |r| <= n
  {
    if n == 0 then []
    else HitsUpTo(ip, tags, n - 1, name) + (if Matching(tags[n - 1], name) then [ip] else [])
  }

  /** What one instance adds to the output. */
  function Hits(inst: Instance, name: string): seq<string>
  {
    HitsUpTo(inst.privateIpAddress, TagsOf(inst), |TagsOf(inst)|, name)
  }

  /** The `output` list of `rlookup` after the first `n` instances. */
  function MatchesUpTo(instances: seq<Instance>, n: nat, name: string): seq<string>
    requires n <= |instances|
  {
    if n == 0 then []
    else MatchesUpTo(instances, n - 1, name) + Hits(instances[n - 1], name)
  }

  /** The list `rlookup` returns. */
  function Matches(instances: seq<Instance>, name: string): seq<string>
  {
    MatchesUpTo(instances, |instances|, name)
  }

  /** The instances among the first `n` that carry a matching tag, in instance order. */
  function NamedUpTo(instances: seq<Instance>, n: nat, name: string): (r: seq<Instance>)
    requires n <= |instances|
    ensures forall k :: 0 <= k < |r| ==> HasMatchingTag(r[k], name) && r[k] in instances
  {
    if n == 0 then []
    else NamedUpTo(instances, n - 1, name) + (if HasMatchingTag(instances[n - 1], name) then [instances[n - 1]] else [])
  }

  /** The instances that carry a matching tag, in instance order. */
  function Named(instances: seq<Instance>, name: string): seq<Instance>
  {
    NamedUpTo(instances, |instances|, name)
  }

  /** The loop of `rlookup`: for each instance with tags, each tag of it whose key is
      `Name` and whose value is the requested name appends the instance's address. */
  method RLookup(instances: seq<Instance>, name: string) returns (output: seq<string>)
    ensures output == Matches(instances, name)
  {
    output := [];
    var i := 0;
    while i < |instances|
      invariant 0 <= i <= |instances|
      invariant output == MatchesUpTo(instances, i, name)
    {
      var inst := instances[i];
      ghost var before := output;
      if inst.tags.Some? && inst.tags.value != [] {
        var tags := inst.tags.value;
        var j := 0;
        while j < |tags|
          invariant 0 <= j <= |tags|
          invariant output == before + HitsUpTo(inst.privateIpAddress, tags, j, name)
        {
          if tags[j].key == NameKey && tags[j].value == name {
            output := output + [inst.privateIpAddress];
          }
          j := j + 1;
        }
      }
      i := i + 1;
    }
  }

  /** `__main__`: the number of matches it prints, and whether it then asks for the name
      of a single instance (more than one match). */
  method Report(instances: seq<Instance>, name: string) returns (count: nat, askForName: bool)
    ensures count == |Matches(instances, name)|
    ensures askForName <==> count > 1
  {
    var machines := RLookup(instances, name);
    count := |machines|;
    askForName := |machines| > 1;
  }

  /** One entry per matching tag among the first `n` tags. */
  lemma {:induction false} HitsCountUpTo(ip: string, tags: seq<Tag>, n: nat, name: string)
    requires n <= |tags|
    ensures |HitsUpTo(ip, tags, n, name)| == |set j | 0 <= j < n && Matching(tags[j], name)|
  {
    if n > 0 {
      HitsCountUpTo(ip, tags, n - 1, name);
      var before := set j | 0 <= j < n - 1 && Matching(tags[j], name);
      if Matching(tags[n - 1], name) {
        assert (set j | 0 <= j < n && Matching(tags[j], name)) == before + {n - 1};
      } else {
        assert (set j | 0 <= j < n && Matching(tags[j], name)) == before;
      }
    }
  }

  /** An instance adds its address once for each of its matching tags. */
  lemma HitsCount(inst: Instance, name: string)
    ensures |Hits(inst, name)| == |MatchingIndices(TagsOf(inst), name)|
  {
    HitsCountUpTo(inst.privateIpAddress, TagsOf(inst), |TagsOf(inst)|, name);
  }

  /** Every hit of an instance is its address; there are hits exactly when one of the
      tags looked at matches. */
  lemma {:induction false} HitsShape(ip: string, tags: seq<Tag>, n: nat, name: string)
    requires n <= |tags|
    ensures forall k :: 0 <= k < |HitsUpTo(ip, tags, n, name)| ==> HitsUpTo(ip, tags, n, name)[k] == ip
    ensures HitsUpTo(ip, tags, n, name) != [] <==> exists j :: 0 <= j < n && Matching(tags[j], name)
  {
    if n > 0 {
      HitsShape(ip, tags, n - 1, name);
    }
  }

  /** With unique tag keys an instance has at most one `Name` tag, so it adds its
      address at most once. */
  lemma {:induction false} HitsUnique(ip: string, tags: seq<Tag>, n: nat, name: string)
    requires UniqueKeys(tags) && n <= |tags|
    ensures |HitsUpTo(ip, tags, n, name)| <= 1
  {
    if n > 0 {
      HitsUnique(ip, tags, n - 1, name);
      if Matching(tags[n - 1], name) {
        assert forall j :: 0 <= j < n - 1 ==> !Matching(tags[j], name) by {
          forall j | 0 <= j < n - 1 ensures !Matching(tags[j], name) {
            assert tags[j].key != tags[n - 1].key;
          }
        }
        HitsShape(ip, tags, n - 1, name);
      }
    }
  }

  /** Instances after position `n` do not change the output for the first `n`. */
  lemma {:induction false} MatchesPrefix(a: seq<Instance>, b: seq<Instance>, n: nat, name: string)
    requires n <= |a|
    ensures MatchesUpTo(a + b, n, name) == MatchesUpTo(a, n, name)
  {
    if n > 0 {
      MatchesPrefix(a, b, n - 1, name);
      assert (a + b)[n - 1] == a[n - 1];
    }
  }

  /** The output for the first `|a| + n` instances of `a + b` is `a`'s output, then that
      for the first `n` instances of `b`. */
  lemma {:induction false} MatchesAppend(a: seq<Instance>, b: seq<Instance>, n: nat, name: string)
    requires n <= |b|
    ensures MatchesUpTo(a + b, |a| + n, name) == Matches(a, name) + MatchesUpTo(b, n, name)
  {
    if n == 0 {
      MatchesPrefix(a, b, |a|, name);
    } else {
      MatchesAppend(a, b, n - 1, name);
      var h := Hits(b[n - 1], name);
      assert (a + b)[|a| + n - 1] == b[n - 1];
      assert MatchesUpTo(a + b, |a| + n, name) == MatchesUpTo(a + b, |a| + n - 1, name) + h;
      assert (Matches(a, name) + MatchesUpTo(b, n - 1, name)) + h == Matches(a, name) + (MatchesUpTo(b, n - 1, name) + h);
    }
  }

  /** The output of a run over two groups of instances is the output over the first group
      followed by the output over the second: instance order is kept. */
  lemma MatchesConcat(a: seq<Instance>, b: seq<Instance>, name: string)
    ensures Matches(a + b, name) == Matches(a, name) + Matches(b, name)
  {
    MatchesAppend(a, b, |b|, name);
  }

  /** An instance with missing or empty tags contributes nothing, wherever it stands. */
  lemma UntaggedIgnored(a: seq<Instance>, inst: Instance, b: seq<Instance>, name: string)
    requires inst.tags.None? || inst.tags == Some([])
    ensures Matches(a + [inst] + b, name) == Matches(a + b, name)
  {
    assert Hits(inst, name) == [] by {
      assert |TagsOf(inst)| == 0;
    }
    assert Matches([inst], name) == MatchesUpTo([inst], 0, name) + Hits(inst, name);
    MatchesConcat(a, [inst], name);
    assert Matches(a + [inst], name) == Matches(a, name);
    MatchesConcat(a + [inst], b, name);
    MatchesConcat(a, b, name);
  }

  /** Every entry of the output for the first `n` instances is the address of one of them
      carrying a matching tag, and each such address is in it. */
  lemma {:induction false} MatchesMembersUpTo(instances: seq<Instance>, n: nat, name: string, x: string)
    requires n <= |instances|
    ensures x in MatchesUpTo(instances, n, name) <==>
            exists k :: 0 <= k < n && instances[k].privateIpAddress == x && HasMatchingTag(instances[k], name)
  {
    if n > 0 {
      var inst := instances[n - 1];
      MatchesMembersUpTo(instances, n - 1, name, x);
      HitsShape(inst.privateIpAddress, TagsOf(inst), |TagsOf(inst)|, name);
      var hits := Hits(inst, name);
      assert x in hits <==> hits != [] && x == inst.privateIpAddress by {
        if hits != [] {
          assert hits[0] == inst.privateIpAddress;
        }
      }
    }
  }

  /** Every entry of the output is the address of an instance carrying a matching tag,
      and every such instance's address is in the output. */
  lemma MatchesMembers(instances: seq<Instance>, name: string, x: string)
    ensures x in Matches(instances, name) <==>
            exists k :: 0 <= k < |instances| && instances[k].privateIpAddress == x && HasMatchingTag(instances[k], name)
  {
    MatchesMembersUpTo(instances, |instances|, name, x);
  }

  /** With unique tag keys on every instance, the output for the first `n` instances has
      one entry per instance among them that carries the name. */
  lemma {:induction false} UniqueKeysMatchesUpTo(instances: seq<Instance>, n: nat, name: string)
    requires forall k :: 0 <= k < |instances| ==> UniqueKeys(TagsOf(instances[k]))
    requires n <= |instances|
    ensures |MatchesUpTo(instances, n, name)| == |NamedUpTo(instances, n, name)|
  {
    if n > 0 {
      var inst := instances[n - 1];
      UniqueKeysMatchesUpTo(instances, n - 1, name);
      HitsUnique(inst.privateIpAddress, TagsOf(inst), |TagsOf(inst)|, name);
      HitsShape(inst.privateIpAddress, TagsOf(inst), |TagsOf(inst)|, name);
    }
  }

  /** `__main__` asks for a single name exactly when, with unique tag keys on every
      instance, more than one instance carries the name. */
  lemma AskForNameWhenAmbiguous(instances: seq<Instance>, name: string)
    requires forall k :: 0 <= k < |instances| ==> UniqueKeys(TagsOf(instances[k]))
    ensures |Matches(instances, name)| == |Named(instances, name)|
    ensures |Matches(instances, name)| > 1 <==> |Named(instances, name)| > 1
  {
    UniqueKeysMatchesUpTo(instances, |instances|, name);
  }
}
