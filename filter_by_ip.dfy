/** `loopQuery` of `awsFilterByIp.py`: the values of the `Name` tags in a
    `describe_instances` response, printed in the order the three loops meet them. */
module FilterByIp {
  import opened Wrappers
  import opened Ec2

  /** An entry of a reservation's `Instances` list; `tags` is `None` when the entry has
      no `Tags` key. */
  datatype InstanceDescription = InstanceDescription(tags: Option<seq<Tag>>)

  /** An entry of the response's `Reservations` list. */
  datatype Reservation = Reservation(instances: seq<InstanceDescription>)

  /** The part of a `describe_instances` response that `loopQuery` reads. */
  datatype DescribeResponse = DescribeResponse(reservations: seq<Reservation>)

  /** Every instance of the list carries a `Tags` list. */
  predicate Tagged(instances: seq<InstanceDescription>)
  {
    forall m :: 0 <= m < |instances| ==> instances[m].tags.Some?
  }

  /** `instance["Tags"]` is looked up without a fallback, so every instance of every
      reservation must carry a `Tags` list. */
  predicate AllTagged(rs: seq<Reservation>)
  {
    forall k :: 0 <= k < |rs| ==> Tagged(rs[k].instances)
  }

  /** The values of the `Name` tags among the first `n` tags, in tag order. */
  function NameValuesUpTo(tags: seq<Tag>, n: nat): (r: seq<string>)
    requires n <= |tags|
    ensures |r| <= n
  {
    if n == 0 then []
    else NameValuesUpTo(tags, n - 1) + (if tags[n - 1].key == NameKey then [tags[n - 1].value] else [])
  }

  /** The values of the `Name` tags of a tag list, in tag order. */
  function NameValues(tags: seq<Tag>): seq<string>
  {
    NameValuesUpTo(tags, |tags|)
  }

  /** What the two inner loops print for the first `n` instances of a reservation. */
  function InstanceNamesUpTo(instances: seq<InstanceDescription>, n: nat): seq<string>
    requires Tagged(instances) && n <= |instances|
  {
    if n == 0 then []
    else InstanceNamesUpTo(instances, n - 1) + NameValues(instances[n - 1].tags.value)
  }

  /** What `loopQuery` prints for the first `n` reservations. */
  function ResponseNamesUpTo(rs: seq<Reservation>, n: nat): seq<string>
    requires AllTagged(rs) && n <= |rs|
  {
    if n == 0 then []
    else ResponseNamesUpTo(rs, n - 1) + InstanceNamesUpTo(rs[n - 1].instances, |rs[n - 1].instances|)
  }

  /** What `loopQuery` prints for a whole response. */
  function ResponseNames(rs: seq<Reservation>): (r: seq<string>)
    requires AllTagged(rs)
    ensures rs == [] ==> r == []
  {
    ResponseNamesUpTo(rs, |rs|)
  }

  /** The line `loopQuery` prints before it walks the response. */
  const LoopHeader := "Result from for loop"

  /** `loopQuery`: the header line, then, for each reservation, each of its instances and
      each of that instance's tags, the value of every tag whose key is `Name`. */
  method LoopQuery(response: DescribeResponse) returns (printed: seq<string>)
    requires AllTagged(response.reservations)
    ensures printed == [LoopHeader] + ResponseNames(response.reservations)
  {
    var rs := response.reservations;
    printed := [LoopHeader];
    var i := 0;
    while i < |rs|
      invariant 0 <= i <= |rs|
      invariant printed == [LoopHeader] + ResponseNamesUpTo(rs, i)
    {
      var instances := rs[i].instances;
      ghost var beforeReservation := printed;
      var k := 0;
      while k < |instances|
        invariant 0 <= k <= |instances|
        invariant printed == beforeReservation + InstanceNamesUpTo(instances, k)
      {
        var tags := instances[k].tags.value;
        ghost var beforeInstance := printed;
        var j := 0;
        while j < |tags|
          invariant 0 <= j <= |tags|
          invariant printed == beforeInstance + NameValuesUpTo(tags, j)
        {
          if tags[j].key == NameKey {
            var serverName := tags[j].value;
            printed := printed + [serverName];
          }
          j := j + 1;
        }
        k := k + 1;
      }
      i := i + 1;
    }
  }

  /** All tags of the first `n` instances, instance after instance. */
  function InstanceTagsUpTo(instances: seq<InstanceDescription>, n: nat): seq<Tag>
    requires Tagged(instances) && n <= |instances|
  {
    if n == 0 then []
    else InstanceTagsUpTo(instances, n - 1) + instances[n - 1].tags.value
  }

  /** All tags of the first `n` reservations: reservation after reservation, instance
      after instance, in each instance's tag order. */
  function AllTagsUpTo(rs: seq<Reservation>, n: nat): seq<Tag>
    requires AllTagged(rs) && n <= |rs|
  {
    if n == 0 then []
    else AllTagsUpTo(rs, n - 1) + InstanceTagsUpTo(rs[n - 1].instances, |rs[n - 1].instances|)
  }

  /** All tags of a response, in the order the loops visit them. */
  function AllTags(rs: seq<Reservation>): seq<Tag>
    requires AllTagged(rs)
  {
    AllTagsUpTo(rs, |rs|)
  }

  /** The positions of `tags` that hold a `Name` tag. */
  function NameIndices(tags: seq<Tag>): set<int>
  {
    set j | 0 <= j < |tags| && tags[j].key == NameKey
  }

  /** One value per `Name` tag among the first `n` tags. */
  lemma {:induction false} NameValuesCountUpTo(tags: seq<Tag>, n: nat)
    requires n <= |tags|
    ensures |NameValuesUpTo(tags, n)| == |set j | 0 <= j < n && tags[j].key == NameKey|
  {
    if n > 0 {
      NameValuesCountUpTo(tags, n - 1);
      var before := set j | 0 <= j < n - 1 && tags[j].key == NameKey;
      if tags[n - 1].key == NameKey {
        assert (set j | 0 <= j < n && tags[j].key == NameKey) == before + {n - 1};
      } else {
        assert (set j | 0 <= j < n && tags[j].key == NameKey) == before;
      }
    }
  }

  /** One value per `Name` tag. */
  lemma NameValuesCount(tags: seq<Tag>)
    ensures |NameValues(tags)| == |NameIndices(tags)|
  {
    NameValuesCountUpTo(tags, |tags|);
  }

  /** A value is printed for the first `n` tags exactly when one of them has key `Name`
      and that value: nothing comes from tags of other keys. */
  lemma {:induction false} NameValuesMembers(tags: seq<Tag>, n: nat, v: string)
    requires n <= |tags|
    ensures v in NameValuesUpTo(tags, n) <==> exists j :: 0 <= j < n && tags[j].key == NameKey && tags[j].value == v
  {
    if n > 0 {
      NameValuesMembers(tags, n - 1, v);
    }
  }

  /** Tags after position `n` do not change what the first `n` tags print. */
  lemma {:induction false} NameValuesPrefix(a: seq<Tag>, b: seq<Tag>, n: nat)
    requires n <= |a|
    ensures NameValuesUpTo(a + b, n) == NameValuesUpTo(a, n)
  {
    if n > 0 {
      NameValuesPrefix(a, b, n - 1);
      assert (a + b)[n - 1] == a[n - 1];
    }
  }

  /** The `Name` values of the first `|a| + n` tags of `a + b` are `a`'s, then those of
      the first `n` tags of `b`. */
  lemma {:induction false} NameValuesAppend(a: seq<Tag>, b: seq<Tag>, n: nat)
    requires n <= |b|
    ensures NameValuesUpTo(a + b, |a| + n) == NameValues(a) + NameValuesUpTo(b, n)
  {
    if n == 0 {
      NameValuesPrefix(a, b, |a|);
    } else {
      NameValuesAppend(a, b, n - 1);
      assert (a + b)[|a| + n - 1] == b[n - 1];
      var last := if b[n - 1].key == NameKey then [b[n - 1].value] else [];
      assert NameValuesUpTo(a + b, |a| + n) == NameValuesUpTo(a + b, |a| + n - 1) + last;
      assert (NameValues(a) + NameValuesUpTo(b, n - 1)) + last == NameValues(a) + (NameValuesUpTo(b, n - 1) + last);
    }
  }

  /** The `Name` values of two tag lists back to back are the first list's, then the
      second's. */
  lemma NameValuesConcat(a: seq<Tag>, b: seq<Tag>)
    ensures NameValues(a + b) == NameValues(a) + NameValues(b)
  {
    NameValuesAppend(a, b, |b|);
  }

  /** The two inner loops print the `Name` values of the instances' tags taken in order. */
  lemma {:induction false} InstanceNamesFlatten(instances: seq<InstanceDescription>, n: nat)
    requires Tagged(instances) && n <= |instances|
    ensures InstanceNamesUpTo(instances, n) == NameValues(InstanceTagsUpTo(instances, n))
  {
    if n > 0 {
      InstanceNamesFlatten(instances, n - 1);
      NameValuesConcat(InstanceTagsUpTo(instances, n - 1), instances[n - 1].tags.value);
    }
  }

  /** `loopQuery` prints the `Name` values of all tags of the first `n` reservations, in
      reservation order, then instance order, then tag order. */
  lemma {:induction false} ResponseNamesFlattenUpTo(rs: seq<Reservation>, n: nat)
    requires AllTagged(rs) && n <= |rs|
    ensures ResponseNamesUpTo(rs, n) == NameValues(AllTagsUpTo(rs, n))
  {
    if n > 0 {
      var instances := rs[n - 1].instances;
      ResponseNamesFlattenUpTo(rs, n - 1);
      InstanceNamesFlatten(instances, |instances|);
      NameValuesConcat(AllTagsUpTo(rs, n - 1), InstanceTagsUpTo(instances, |instances|));
    }
  }

  /** `loopQuery` prints the `Name` values of all tags of the response in reservation
      order, then instance order, then tag order. */
  lemma ResponseNamesFlatten(rs: seq<Reservation>)
    requires AllTagged(rs)
    ensures ResponseNames(rs) == NameValues(AllTags(rs))
  {
    ResponseNamesFlattenUpTo(rs, |rs|);
  }

  /** As many values are printed as the response has `Name` tags, and a value is
      printed exactly when some `Name` tag of the response carries it. */
  lemma ResponseNamesCount(rs: seq<Reservation>, v: string)
    requires AllTagged(rs)
    ensures |ResponseNames(rs)| == |NameIndices(AllTags(rs))|
    ensures v in ResponseNames(rs) <==>
            exists j :: 0 <= j < |AllTags(rs)| && AllTags(rs)[j].key == NameKey && AllTags(rs)[j].value == v
  {
    ResponseNamesFlatten(rs);
    NameValuesCount(AllTags(rs));
    NameValuesMembers(AllTags(rs), |AllTags(rs)|, v);
  }

  /** Reservations after position `n` do not change what the first `n` print. */
  lemma {:induction false} ResponseNamesPrefix(a: seq<Reservation>, b: seq<Reservation>, n: nat)
    requires AllTagged(a + b) && AllTagged(a) && n <= |a|
    ensures ResponseNamesUpTo(a + b, n) == ResponseNamesUpTo(a, n)
  {
    if n > 0 {
      ResponseNamesPrefix(a, b, n - 1);
      assert (a + b)[n - 1] == a[n - 1];
    }
  }

  /** The first `|a| + n` reservations of `a + b` print `a`'s values, then those of the
      first `n` reservations of `b`. */
  lemma {:induction false} ResponseNamesAppend(a: seq<Reservation>, b: seq<Reservation>, n: nat)
    requires AllTagged(a + b) && AllTagged(a) && AllTagged(b) && n <= |b|
    ensures ResponseNamesUpTo(a + b, |a| + n) == ResponseNames(a) + ResponseNamesUpTo(b, n)
  {
    if n == 0 {
      ResponseNamesPrefix(a, b, |a|);
    } else {
      ResponseNamesAppend(a, b, n - 1);
      assert (a + b)[|a| + n - 1] == b[n - 1];
      var last := InstanceNamesUpTo(b[n - 1].instances, |b[n - 1].instances|);
      assert ResponseNamesUpTo(a + b, |a| + n) == ResponseNamesUpTo(a + b, |a| + n - 1) + last;
      assert ResponseNamesUpTo(b, n) == ResponseNamesUpTo(b, n - 1) + last;
      assert (ResponseNames(a) + ResponseNamesUpTo(b, n - 1)) + last ==
             ResponseNames(a) + (ResponseNamesUpTo(b, n - 1) + last);
    }
  }

  /** Two lists of reservations back to back print the first list's values, then the
      second's. */
  lemma ResponseNamesConcat(a: seq<Reservation>, b: seq<Reservation>)
    requires AllTagged(a) && AllTagged(b)
    ensures AllTagged(a + b)
    ensures ResponseNames(a + b) == ResponseNames(a) + ResponseNames(b)
  {
    assert AllTagged(a + b) by {
      forall k | 0 <= k < |a + b| ensures Tagged((a + b)[k].instances) {
        if k < |a| {
          assert (a + b)[k] == a[k];
        } else {
          assert (a + b)[k] == b[k - |a|];
        }
      }
    }
    ResponseNamesAppend(a, b, |b|);
  }
}
