/** The grouping loop of `handle_DATA`: recipients batched per
    destination, one outbound delivery per destination. */
module Batching {

  import opened Results
  import opened Config
  import opened Routing

  /** One entry of `mail_per_server`: the destination, named by the
      position of its rule in the table, and its recipients. The source
      keys the dictionary by `id(server)`; every rule is its own
      dictionary built once at start-up, so the rule's position names
      the same object. */
  datatype Group = Group(rule: nat, addresses: seq<string>)

  /** The position of the rule `find_server` picks for a routable address. */
  function RuleOf(table: seq<Server>, m: Matcher, address: string): nat
    requires Routable(table, m, address)
  {
    FirstMatch(table, m, address).value
  }

  /** The destination keys of `groups`, in order. */
  function Rules(groups: seq<Group>): (r: seq<nat>)
    ensures |r| == |groups|
    ensures forall i :: 0 <= i < |groups| ==> r[i] == groups[i].rule
  {
    seq(|groups|, i requires 0 <= i < |groups| => groups[i].rule)
  }

  /** The dictionary lookup `mail_per_server[key]`: the position of the
      group for `rule`, or `|groups|` when there is none (`KeyError`). */
  function FindGroup(groups: seq<Group>, rule: nat): (i: nat)
    ensures i <= |groups|
    ensures i < |groups| ==> groups[i].rule == rule
    ensures forall j :: 0 <= j < i ==> groups[j].rule != rule
    decreases |groups|
  {
    if |groups| == 0 then 0
    else if groups[0].rule == rule then 0
    else 1 + FindGroup(groups[1..], rule)
  }

  /** One iteration of the loop: append `address` to the group for
      `rule`, creating that group at the end if it is new. */
  function AddAddress(groups: seq<Group>, rule: nat, address: string): seq<Group>
  {
    var i := FindGroup(groups, rule);
    if i == |groups| then groups + [Group(rule, [address])]
    else groups[i := groups[i].(addresses := groups[i].addresses + [address])]
  }

  /** `mail_per_server.values()` after the loop over `rcpt_tos`. Every
      recipient was admitted by `handle_RCPT`, hence is routable. */
  function Batch(table: seq<Server>, m: Matcher, rcpts: seq<string>): seq<Group>
    requires AllRoutable(table, m, rcpts)
    decreases |rcpts|
  {
    if |rcpts| == 0 then []
    else
      var last := rcpts[|rcpts| - 1];
      AddAddress(Batch(table, m, rcpts[..|rcpts| - 1]), RuleOf(table, m, last), last)
  }

  // ---------------------------------------------------------------------
  // An independent description of the batches

  /** The destination key of every recipient, in recipient order. */
  function RuleSeq(table: seq<Server>, m: Matcher, rcpts: seq<string>): (r: seq<nat>)
    requires AllRoutable(table, m, rcpts)
    ensures |r| == |rcpts|
    ensures forall i :: 0 <= i < |rcpts| ==> r[i] == RuleOf(table, m, rcpts[i])
  {
    seq(|rcpts|, i requires 0 <= i < |rcpts| => RuleOf(table, m, rcpts[i]))
  }

  predicate NoDuplicates(ks: seq<nat>)
  {
    forall i, j :: 0 <= i < j < |ks| ==> ks[i] != ks[j]
  }

  /** The distinct keys of `ks`, each kept at its first occurrence. */
  function Dedup(ks: seq<nat>): (r: seq<nat>)
    ensures NoDuplicates(r)
    ensures forall k :: k in r <==> k in ks
    decreases |ks|
  {
    if |ks| == 0 then []
    else
      var d := Dedup(ks[..|ks| - 1]);
      var last := ks[|ks| - 1];
      assert forall k :: k in ks <==> k in ks[..|ks| - 1] || k == last by {
        assert ks == ks[..|ks| - 1] + [last];
      }
      if last in d then d else d + [last]
  }

  /** The recipients whose destination is `rule`, in their original order. */
  function WithRule(table: seq<Server>, m: Matcher, rcpts: seq<string>, rule: nat): (r: seq<string>)
    requires AllRoutable(table, m, rcpts)
    ensures AllRoutable(table, m, r)
    ensures forall j :: 0 <= j < |r| ==> RuleOf(table, m, r[j]) == rule
    ensures forall a :: a in r ==> a in rcpts
    ensures forall j :: 0 <= j < |rcpts| && RuleOf(table, m, rcpts[j]) == rule ==> rcpts[j] in r
    ensures |r| == 0 <==> rule !in RuleSeq(table, m, rcpts)
    decreases |rcpts|
  {
    if |rcpts| == 0 then []
    else
      var init := rcpts[..|rcpts| - 1];
      var last := rcpts[|rcpts| - 1];
      var r := WithRule(table, m, init, rule) + (if RuleOf(table, m, last) == rule then [last] else []);
      assert RuleSeq(table, m, rcpts) == RuleSeq(table, m, init) + [RuleOf(table, m, last)];
      assert forall j :: 0 <= j < |init| ==> init[j] == rcpts[j];
      r
  }

  /** The batches described directly: one group per distinct destination,
      in order of first appearance, each holding the recipients bound for
      it in their original order. */
  function ReferenceBatch(table: seq<Server>, m: Matcher, rcpts: seq<string>): seq<Group>
    requires AllRoutable(table, m, rcpts)
  {
    var keys := Dedup(RuleSeq(table, m, rcpts));
    seq(|keys|, i requires 0 <= i < |keys| => Group(keys[i], WithRule(table, m, rcpts, keys[i])))
  }

  lemma AddExisting(groups: seq<Group>, i: nat, address: string)
    requires i < |groups| && NoDuplicates(Rules(groups))
    ensures AddAddress(groups, groups[i].rule, address) ==
      groups[i := groups[i].(addresses := groups[i].addresses + [address])]
  {
  }

  lemma AddNew(groups: seq<Group>, rule: nat, address: string)
    requires rule !in Rules(groups)
    ensures AddAddress(groups, rule, address) == groups + [Group(rule, [address])]
  {
  }

  lemma RuleSeqSnoc(table: seq<Server>, m: Matcher, rcpts: seq<string>)
    requires AllRoutable(table, m, rcpts) && |rcpts| > 0
    ensures RuleSeq(table, m, rcpts) ==
      RuleSeq(table, m, rcpts[..|rcpts| - 1]) + [RuleOf(table, m, rcpts[|rcpts| - 1])]
  {
  }

  lemma WithRuleSnoc(table: seq<Server>, m: Matcher, rcpts: seq<string>, rule: nat)
    requires AllRoutable(table, m, rcpts) && |rcpts| > 0
    ensures var last := rcpts[|rcpts| - 1];
      WithRule(table, m, rcpts, rule) ==
        WithRule(table, m, rcpts[..|rcpts| - 1], rule) + (if RuleOf(table, m, last) == rule then [last] else [])
  {
  }

  /** A recipient bound for a destination already seen joins its group. */
  lemma StepKnownRule(table: seq<Server>, m: Matcher, rcpts: seq<string>, i: nat)
    requires AllRoutable(table, m, rcpts) && |rcpts| > 0
    requires var d := Dedup(RuleSeq(table, m, rcpts[..|rcpts| - 1]));
      i < |d| && d[i] == RuleOf(table, m, rcpts[|rcpts| - 1])
    requires Dedup(RuleSeq(table, m, rcpts)) == Dedup(RuleSeq(table, m, rcpts[..|rcpts| - 1]))
    ensures var g := ReferenceBatch(table, m, rcpts[..|rcpts| - 1]);
      ReferenceBatch(table, m, rcpts) ==
        g[i := g[i].(addresses := g[i].addresses + [rcpts[|rcpts| - 1]])]
  {
    var init := rcpts[..|rcpts| - 1];
    var last := rcpts[|rcpts| - 1];
    var d := Dedup(RuleSeq(table, m, init));
    var g := ReferenceBatch(table, m, init);
    var whole := ReferenceBatch(table, m, rcpts);
    var updated := g[i := g[i].(addresses := g[i].addresses + [last])];
    forall j | 0 <= j < |whole| ensures whole[j] == updated[j] {
      WithRuleSnoc(table, m, rcpts, d[j]);
    }
  }

  /** A recipient bound for a new destination opens a group at the end. */
  lemma StepNewRule(table: seq<Server>, m: Matcher, rcpts: seq<string>)
    requires AllRoutable(table, m, rcpts) && |rcpts| > 0
    requires var d := Dedup(RuleSeq(table, m, rcpts[..|rcpts| - 1]));
      RuleOf(table, m, rcpts[|rcpts| - 1]) !in d
      && Dedup(RuleSeq(table, m, rcpts)) == d + [RuleOf(table, m, rcpts[|rcpts| - 1])]
    ensures var last := rcpts[|rcpts| - 1];
      ReferenceBatch(table, m, rcpts) ==
        ReferenceBatch(table, m, rcpts[..|rcpts| - 1]) + [Group(RuleOf(table, m, last), [last])]
  {
    var init := rcpts[..|rcpts| - 1];
    var last := rcpts[|rcpts| - 1];
    var k := RuleOf(table, m, last);
    var d := Dedup(RuleSeq(table, m, init));
    var whole := ReferenceBatch(table, m, rcpts);
    var extended := ReferenceBatch(table, m, init) + [Group(k, [last])];
    forall j | 0 <= j < |whole| ensures whole[j] == extended[j] {
      var x := (d + [k])[j];
      WithRuleSnoc(table, m, rcpts, x);
      if j == |d| {
        assert WithRule(table, m, init, k) == [];
      }
    }
  }

  /** Adding one recipient to the reference batches is one loop iteration. */
  lemma ReferenceStep(table: seq<Server>, m: Matcher, rcpts: seq<string>)
    requires AllRoutable(table, m, rcpts) && |rcpts| > 0
    ensures var last := rcpts[|rcpts| - 1];
      ReferenceBatch(table, m, rcpts) ==
        AddAddress(ReferenceBatch(table, m, rcpts[..|rcpts| - 1]), RuleOf(table, m, last), last)
  {
    var init := rcpts[..|rcpts| - 1];
    var last := rcpts[|rcpts| - 1];
    var k := RuleOf(table, m, last);
    var g := ReferenceBatch(table, m, init);
    var d := Dedup(RuleSeq(table, m, init));
    assert Rules(g) == d;
    RuleSeqSnoc(table, m, rcpts);
    assert RuleSeq(table, m, rcpts)[..|rcpts| - 1] == RuleSeq(table, m, init);
    if k in d {
      var i :| 0 <= i < |d| && d[i] == k;
      AddExisting(g, i, last);
      StepKnownRule(table, m, rcpts, i);
    } else {
      AddNew(g, k, last);
      StepNewRule(table, m, rcpts);
    }
  }

  /** The loop builds exactly the reference batches. */
  lemma {:induction false} BatchIsReference(table: seq<Server>, m: Matcher, rcpts: seq<string>)
    requires AllRoutable(table, m, rcpts)
    ensures Batch(table, m, rcpts) == ReferenceBatch(table, m, rcpts)
    decreases |rcpts|
  {
    if |rcpts| > 0 {
      BatchIsReference(table, m, rcpts[..|rcpts| - 1]);
      ReferenceStep(table, m, rcpts);
    }
  }

  // ---------------------------------------------------------------------
  // Properties of the batches

  /** The groups' keys are the distinct destinations of the recipients,
      each once, in order of first appearance. */
  lemma BatchKeys(table: seq<Server>, m: Matcher, rcpts: seq<string>)
    requires AllRoutable(table, m, rcpts)
    ensures Rules(Batch(table, m, rcpts)) == Dedup(RuleSeq(table, m, rcpts))
    ensures NoDuplicates(Rules(Batch(table, m, rcpts)))
  {
    BatchIsReference(table, m, rcpts);
  }

  /** Each group holds exactly the recipients bound for its destination,
      in their original relative order, and no group is empty. */
  lemma BatchGroupContents(table: seq<Server>, m: Matcher, rcpts: seq<string>)
    requires AllRoutable(table, m, rcpts)
    ensures var groups := Batch(table, m, rcpts);
      forall i :: 0 <= i < |groups| ==>
        && groups[i].addresses == WithRule(table, m, rcpts, groups[i].rule)
        && |groups[i].addresses| > 0
  {
    BatchIsReference(table, m, rcpts);
    var groups := Batch(table, m, rcpts);
    forall i | 0 <= i < |groups| ensures |groups[i].addresses| > 0 {
      assert groups[i].rule in Dedup(RuleSeq(table, m, rcpts));
    }
  }

  /** Every recipient sits in the one group of its own destination. */
  lemma RecipientInOwnGroup(table: seq<Server>, m: Matcher, rcpts: seq<string>, j: nat)
    requires AllRoutable(table, m, rcpts) && j < |rcpts|
    ensures var groups := Batch(table, m, rcpts);
      exists i :: 0 <= i < |groups| && groups[i].rule == RuleOf(table, m, rcpts[j])
        && rcpts[j] in groups[i].addresses
  {
    var groups := Batch(table, m, rcpts);
    BatchKeys(table, m, rcpts);
    BatchGroupContents(table, m, rcpts);
    var k := RuleOf(table, m, rcpts[j]);
    assert RuleSeq(table, m, rcpts)[j] == k;
    assert k in Rules(groups);
    var i :| 0 <= i < |groups| && Rules(groups)[i] == k;
    assert rcpts[j] in groups[i].addresses;
  }

  /** The recipients of all groups, concatenated in group order. */
  function Flatten(groups: seq<Group>): seq<string>
    decreases |groups|
  {
    if |groups| == 0 then [] else groups[0].addresses + Flatten(groups[1..])
  }

  lemma {:induction false} FlattenAppend(groups: seq<Group>, g: Group)
    ensures Flatten(groups + [g]) == Flatten(groups) + g.addresses
    decreases |groups|
  {
    if |groups| > 0 {
      assert (groups + [g])[1..] == groups[1..] + [g];
      FlattenAppend(groups[1..], g);
    }
  }

  lemma {:induction false} FlattenUpdate(groups: seq<Group>, i: nat, extra: seq<string>)
    requires i < |groups|
    ensures multiset(Flatten(groups[i := groups[i].(addresses := groups[i].addresses + extra)]))
         == multiset(Flatten(groups)) + multiset(extra)
    decreases i
  {
    var updated := groups[i := groups[i].(addresses := groups[i].addresses + extra)];
    if i == 0 {
      assert updated[1..] == groups[1..];
    } else {
      assert updated[1..] == groups[1..][i - 1 := groups[i].(addresses := groups[i].addresses + extra)];
      FlattenUpdate(groups[1..], i - 1, extra);
    }
  }

  lemma AddAddressMultiset(groups: seq<Group>, rule: nat, address: string)
    ensures multiset(Flatten(AddAddress(groups, rule, address)))
         == multiset(Flatten(groups)) + multiset{address}
  {
    var i := FindGroup(groups, rule);
    if i == |groups| {
      FlattenAppend(groups, Group(rule, [address]));
    } else {
      FlattenUpdate(groups, i, [address]);
    }
  }

  /** Concatenating the groups gives back the recipients, as a multiset:
      nobody is lost or duplicated, repeated recipients included. */
  lemma {:induction false} BatchIsPermutation(table: seq<Server>, m: Matcher, rcpts: seq<string>)
    requires AllRoutable(table, m, rcpts)
    ensures multiset(Flatten(Batch(table, m, rcpts))) == multiset(rcpts)
    decreases |rcpts|
  {
    if |rcpts| > 0 {
      var init := rcpts[..|rcpts| - 1];
      var last := rcpts[|rcpts| - 1];
      BatchIsPermutation(table, m, init);
      AddAddressMultiset(Batch(table, m, init), RuleOf(table, m, last), last);
      assert rcpts == init + [last];
    }
  }

  /** The position of the first occurrence of `k` in `ks`. */
  function FirstIndex(ks: seq<nat>, k: nat): (p: nat)
    requires k in ks
    ensures p < |ks| && ks[p] == k
    ensures forall q :: 0 <= q < p ==> ks[q] != k
    decreases |ks|
  {
    if ks[0] == k then 0 else 1 + FirstIndex(ks[1..], k)
  }

  lemma FirstIndexSnoc(ks: seq<nat>, last: nat, k: nat)
    requires k in ks
    ensures FirstIndex(ks + [last], k) == FirstIndex(ks, k)
  {
    var b := FirstIndex(ks, k);
    assert (ks + [last])[b] == k;
  }

  /** Every key of `d` occurs in `ks`, and `d` lists them in the order
      of their first occurrence there. */
  predicate FirstOccurrenceOrdered(ks: seq<nat>, d: seq<nat>)
  {
    && (forall k :: k in d ==> k in ks)
    && forall i, j :: 0 <= i < j < |d| ==> FirstIndex(ks, d[i]) < FirstIndex(ks, d[j])
  }

  lemma DedupStep(init: seq<nat>, last: nat)
    requires FirstOccurrenceOrdered(init, Dedup(init))
    ensures FirstOccurrenceOrdered(init + [last], Dedup(init + [last]))
  {
    var ks := init + [last];
    assert ks[..|ks| - 1] == init;
    var d0 := Dedup(init);
    var d := Dedup(ks);
    assert d == if last in d0 then d0 else d0 + [last];
    forall i, j | 0 <= i < j < |d|
      ensures FirstIndex(ks, d[i]) < FirstIndex(ks, d[j])
    {
      assert d[i] == d0[i];
      FirstIndexSnoc(init, last, d[i]);
      if j < |d0| {
        assert d[j] == d0[j];
        FirstIndexSnoc(init, last, d[j]);
      } else {
        assert d[j] == last && last !in init;
        assert FirstIndex(ks, last) == |init|;
      }
    }
  }

  /** `Dedup` lists keys in order of first occurrence. */
  lemma {:induction false} DedupFirstOccurrenceOrder(ks: seq<nat>)
    ensures FirstOccurrenceOrdered(ks, Dedup(ks))
    decreases |ks|
  {
    if |ks| > 0 {
      var init := ks[..|ks| - 1];
      DedupFirstOccurrenceOrder(init);
      DedupStep(init, ks[|ks| - 1]);
      assert ks == init + [ks[|ks| - 1]];
    }
  }

  /** Groups are ordered by the first appearance of their destination
      among the recipients. */
  lemma GroupsInFirstAppearanceOrder(table: seq<Server>, m: Matcher, rcpts: seq<string>)
    requires AllRoutable(table, m, rcpts)
    ensures FirstOccurrenceOrdered(RuleSeq(table, m, rcpts), Rules(Batch(table, m, rcpts)))
  {
    BatchKeys(table, m, rcpts);
    DedupFirstOccurrenceOrder(RuleSeq(table, m, rcpts));
  }

  /** A member of a group is a recipient bound for that group's destination. */
  lemma GroupMember(table: seq<Server>, m: Matcher, rcpts: seq<string>, i: nat, a: string)
    requires AllRoutable(table, m, rcpts)
    requires i < |Batch(table, m, rcpts)| && a in Batch(table, m, rcpts)[i].addresses
    ensures a in rcpts && Routable(table, m, a)
    ensures RuleOf(table, m, a) == Batch(table, m, rcpts)[i].rule
    ensures FindServer(table, m, a) == Some(table[Batch(table, m, rcpts)[i].rule])
  {
    BatchIsReference(table, m, rcpts);
    var g := Batch(table, m, rcpts)[i];
    var members := WithRule(table, m, rcpts, g.rule);
    assert g.addresses == members;
    var j :| 0 <= j < |members| && members[j] == a;
  }
}
