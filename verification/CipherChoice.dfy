/** ssl3_choose_cipher: the server's choice among equal-preference groups. */
module CipherChoice {
  import opened Options

  type Cipher = nat

  /** Where c first is in a list; its length if it is not in it. */
  function Find(list: seq<Cipher>, c: Cipher): (i: nat)
    ensures i <= |list|
    ensures i < |list| ==> list[i] == c
    ensures i < |list| <==> c in list
  {
    if list == [] then 0 else if list[0] == c then 0 else 1 + Find(list[1..], c)
  }

  /** The index of the last member of the group that i is in; the list's length when the flags end
      before the group does. A flag is true on every member but the last. */
  function GroupEnd(flags: seq<bool>, i: nat): (j: nat)
    requires i <= |flags|
    ensures i <= j <= |flags|
    ensures j < |flags| ==> !flags[j]
    ensures forall k :: i <= k < j ==> flags[k]
    decreases |flags| - i
  {
    if i == |flags| || !flags[i] then i else GroupEnd(flags, i + 1)
  }

  lemma {:induction false} GroupEndWithin(flags: seq<bool>, i: nat, j: nat)
    requires i <= j <= |flags| && j <= GroupEnd(flags, i)
    ensures GroupEnd(flags, j) == GroupEnd(flags, i)
    decreases j - i
  {
    if i < j {
      GroupEndWithin(flags, i + 1, j);
    }
  }

  /** A list to choose from, in order of preference, with its groups, and the list a choice has to be
      in; `fits` is what the version and the configuration allow. */
  datatype Choice = Choice(prio: seq<Cipher>, flags: seq<bool>, allow: seq<Cipher>, fits: Cipher -> bool)

  predicate Valid(c: Choice) {
    |c.flags| == |c.prio|
  }

  predicate Acceptable(c: Choice, i: nat)
    requires i < |c.prio|
  {
    c.fits(c.prio[i]) && c.prio[i] in c.allow
  }

  /** i is acceptable and its group is closed by a flag of 0. */
  predicate Eligible(c: Choice, i: nat)
    requires Valid(c) && i < |c.prio|
  {
    Acceptable(c, i) && GroupEnd(c.flags, i) < |c.flags|
  }

  /** i is in the first group with an eligible cipher, and no eligible cipher of that group comes
      earlier in the other list. */
  ghost predicate Best(c: Choice, i: nat)
    requires Valid(c) && i < |c.prio|
  {
    && Eligible(c, i)
    && forall j :: 0 <= j < |c.prio| && Eligible(c, j) ==>
         && GroupEnd(c.flags, i) <= GroupEnd(c.flags, j)
         && (GroupEnd(c.flags, i) == GroupEnd(c.flags, j) ==> Find(c.allow, c.prio[i]) <= Find(c.allow, c.prio[j]))
  }

  /** The loop of ssl3_choose_cipher. Nothing is returned exactly when nothing is eligible. */
  method Choose(c: Choice) returns (r: Option<Cipher>)
    requires Valid(c)
    ensures r.None? <==> forall i :: 0 <= i < |c.prio| ==> !Eligible(c, i)
    ensures r.Some? ==> exists i :: 0 <= i < |c.prio| && Best(c, i) && c.prio[i] == r.value
  {
    hide Find, GroupEnd;
    var groupMin := -1;
    ghost var best := 0;
    var i := 0;
    while i < |c.prio|
      invariant 0 <= i <= |c.prio|
      invariant forall j :: 0 <= j < i && Acceptable(c, j) ==> GroupEnd(c.flags, j) >= i && -1 < groupMin <= Find(c.allow, c.prio[j])
      invariant groupMin != -1 ==> 0 <= best < i && Acceptable(c, best) && groupMin == Find(c.allow, c.prio[best])
    {
      if i > 0 && groupMin != -1 {
        GroupEndWithin(c.flags, best, i);
      }
      var x := c.prio[i];
      var index := Find(c.allow, x);
      if c.fits(x) && index < |c.allow| {
        if c.flags[i] {
          if groupMin == -1 || groupMin > index {
            groupMin, best := index, i;
          }
        } else {
          if groupMin != -1 && groupMin < index {
            index := groupMin;
          } else {
            best := i;
          }
          ClosedGroup(c, i, best);
          return Some(c.allow[index]);
        }
      }
      if !c.flags[i] && groupMin != -1 {
        ClosedGroup(c, i, best);
        return Some(c.allow[groupMin]);
      }
      i := i + 1;
    }
    return None;
  }

  /** The group that ends at i is the first with an eligible cipher, and best is its best. */
  lemma ClosedGroup(c: Choice, i: nat, best: nat)
    requires Valid(c) && best <= i < |c.prio| && !c.flags[i] && Acceptable(c, best) && GroupEnd(c.flags, best) >= i
    requires forall j :: 0 <= j <= i && Acceptable(c, j) ==> GroupEnd(c.flags, j) >= i && Find(c.allow, c.prio[best]) <= Find(c.allow, c.prio[j])
    ensures Best(c, best)
  {
    GroupEndWithin(c.flags, best, i);
    forall j | 0 <= j < |c.prio| && Eligible(c, j)
      ensures GroupEnd(c.flags, best) <= GroupEnd(c.flags, j)
      ensures GroupEnd(c.flags, best) == GroupEnd(c.flags, j) ==> Find(c.allow, c.prio[best]) <= Find(c.allow, c.prio[j])
    {
    }
  }

  /** Flags of the shape 1*0, repeated. */
  predicate WellGrouped(flags: seq<bool>) {
    flags == [] || !flags[|flags| - 1]
  }

  lemma {:induction false} AllGroupsClose(flags: seq<bool>, i: nat)
    requires WellGrouped(flags) && i < |flags|
    ensures GroupEnd(flags, i) < |flags|
    decreases |flags| - i
  {
    if flags[i] {
      AllGroupsClose(flags, i + 1);
    }
  }

  /** With the flags BoringSSL's preference lists have, eligible is the same as acceptable: no cipher is
      chosen exactly when none is acceptable. */
  lemma WellGroupedEligible(c: Choice, i: nat)
    requires Valid(c) && WellGrouped(c.flags) && i < |c.prio|
    ensures Eligible(c, i) <==> Acceptable(c, i)
  {
    AllGroupsClose(c.flags, i);
  }

  /** Exactly the lists of that shape miss no acceptable cipher, whatever the ciphers, the other list
      and the configuration. */
  lemma GroupedIff(flags: seq<bool>)
    ensures WellGrouped(flags) <==>
            forall c: Choice, i: nat :: c.flags == flags && Valid(c) && i < |c.prio| && Acceptable(c, i) ==> Eligible(c, i)
  {
    if WellGrouped(flags) {
      forall c: Choice, i: nat | c.flags == flags && Valid(c) && i < |c.prio| && Acceptable(c, i)
        ensures Eligible(c, i)
      {
        WellGroupedEligible(c, i);
      }
    } else {
      var n := |flags|;
      var c := Choice(seq(n, k => k), flags, [n - 1], x => true);
      assert Acceptable(c, n - 1) && !Eligible(c, n - 1);
    }
  }

  /** The set-up: with the server's preference its list and groups are gone through and the client's
      restricts the choice; otherwise the other way round, and without groups. */
  method ChooseCipher(serverPreference: bool, server: seq<Cipher>, groups: seq<bool>, client: seq<Cipher>, fits: Cipher -> bool)
      returns (r: Option<Cipher>)
    requires |groups| == |server| && WellGrouped(groups)
    ensures r.None? <==> forall x :: x in server && x in client ==> !fits(x)
    ensures r.Some? && serverPreference ==>
              var c := Choice(server, groups, client, fits);
              exists i :: 0 <= i < |server| && Best(c, i) && server[i] == r.value
    ensures r.Some? && !serverPreference ==>
              exists i :: 0 <= i < |client| && client[i] == r.value && fits(r.value) && r.value in server
                          && forall j :: 0 <= j < i ==> !(fits(client[j]) && client[j] in server)
  {
    hide GroupEnd, Find;
    var c := if serverPreference then Choice(server, groups, client, fits)
             else Choice(client, seq(|client|, i => false), server, fits);
    r := Choose(c);
    forall i | 0 <= i < |c.prio|
      ensures Eligible(c, i) <==> Acceptable(c, i)
    {
      WellGroupedEligible(c, i);
    }
    forall x | x in server && x in client && fits(x)
      ensures r.Some?
    {
      var i :| 0 <= i < |c.prio| && c.prio[i] == x;
      assert Acceptable(c, i);
    }
    if r.Some? && !serverPreference {
      ghost var i :| 0 <= i < |c.prio| && Best(c, i) && c.prio[i] == r.value;
      assert Acceptable(c, i);
      forall j | 0 <= j < i
        ensures !(fits(client[j]) && client[j] in server)
      {
        Singletons(|client|, i);
        Singletons(|client|, j);
        assert !Acceptable(c, j);
      }
    }
  }

  lemma Singletons(n: nat, i: nat)
    requires i < n
    ensures GroupEnd(seq(n, k => false), i) == i
  {
  }
}
