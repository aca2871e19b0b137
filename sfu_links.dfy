/**
 * The egress half of the SFU's connection registry: `senderPCs`, a map from a
 * publisher to the list of `{id, pc}` entries, one per egress connection that
 * forwards the publisher's media to subscriber `id`. The ingest half is a plain
 * map from publisher to handle and lives in the server class.
 */
module SfuLinks {
  import opened Common

  /** An opaque peer-connection handle; the server numbers handles in creation order. */
  type Pc = nat

  /** One entry `{id, pc}` of `senderPCs[publisher]`. */
  datatype Egress = Egress(id: SocketId, pc: Pc)

  type Senders = map<SocketId, seq<Egress>>

  /** The publisher's list, or the empty list when it has none. */
  function EgressOf(sp: Senders, publisher: SocketId): seq<Egress> {
    if publisher in sp then sp[publisher] else []
  }

  /** Every handle in the registry is below `n`. */
  predicate SendersBelow(sp: Senders, n: nat) {
    forall k, e :: k in sp && e in sp[k] ==> e.pc < n
  }

  /** Every closed handle is below `n`. */
  predicate ClosedBelow(closed: set<Pc>, n: nat) {
    forall h :: h in closed ==> h < n
  }

  predicate HasId(es: seq<Egress>, id: SocketId) {
    exists i :: 0 <= i < |es| && es[i].id == id
  }

  /** The entries of `es` that point at `id`, in list order. */
  function OnlyId(es: seq<Egress>, id: SocketId): (r: seq<Egress>)
    ensures |r| <= |es|
    ensures forall e :: e in r <==> e in es && e.id == id
  {
    if es == [] then []
    else
      var init, last := es[..|es| - 1], es[|es| - 1];
      assert es == init + [last];
      OnlyId(init, id) + (if last.id == id then [last] else [])
  }

  /** The entries of `es` that point at another id than `id`, in list order. */
  function WithoutId(es: seq<Egress>, id: SocketId): (r: seq<Egress>)
    ensures |r| <= |es|
    ensures forall e :: e in r <==> e in es && e.id != id
  {
    if es == [] then []
    else
      var init, last := es[..|es| - 1], es[|es| - 1];
      assert es == init + [last];
      WithoutId(init, id) + (if last.id == id then [] else [last])
  }

  lemma OnlyIdNonEmpty(es: seq<Egress>, id: SocketId)
    ensures OnlyId(es, id) != [] <==> HasId(es, id)
  {
    if HasId(es, id) {
      var i :| 0 <= i < |es| && es[i].id == id;
      assert es[i] in OnlyId(es, id);
    }
    if OnlyId(es, id) != [] {
      assert OnlyId(es, id)[0] in es;
    }
  }

  lemma {:induction false} FilterSplit(es: seq<Egress>, id: SocketId)
    ensures |OnlyId(es, id)| + |WithoutId(es, id)| == |es|
  {
    if es != [] {
      FilterSplit(es[..|es| - 1], id);
    }
  }

  /** Removing a present id makes the list strictly shorter. */
  lemma WithoutIdShrinks(es: seq<Egress>, id: SocketId)
    requires HasId(es, id)
    ensures |WithoutId(es, id)| < |es|
  {
    FilterSplit(es, id);
    OnlyIdNonEmpty(es, id);
  }

  /** Removing an absent id leaves the list as it is. */
  lemma {:induction false} WithoutIdNoOp(es: seq<Egress>, id: SocketId)
    requires !HasId(es, id)
    ensures WithoutId(es, id) == es
  {
    if es != [] {
      var init := es[..|es| - 1];
      forall i | 0 <= i < |init| ensures init[i].id != id {
        assert init[i] == es[i];
      }
      WithoutIdNoOp(init, id);
      assert es[|es| - 1].id != id;
      assert es == init + [es[|es| - 1]];
    }
  }

  lemma OnlyIdAppend(a: seq<Egress>, e: Egress, id: SocketId)
    ensures OnlyId(a + [e], id) == OnlyId(a, id) + (if e.id == id then [e] else [])
  {
    assert (a + [e])[..|a + [e]| - 1] == a;
  }

  // ---------------------------------------------------------------------
  // createSenderPeerConnection

  /** The registry after a new egress entry for (publisher, subscriber); no older entry is removed. */
  function AddEgress(sp: Senders, publisher: SocketId, subscriber: SocketId, pc: Pc): (r: Senders)
    ensures publisher in r && Egress(subscriber, pc) in r[publisher]
    ensures forall e :: e in EgressOf(sp, publisher) ==> e in r[publisher]
    ensures forall k :: k != publisher ==> (k in r <==> k in sp)
    ensures forall k :: k != publisher && k in sp ==> r[k] == sp[k]
  {
    sp[publisher := EgressOf(sp, publisher) + [Egress(subscriber, pc)]]
  }

  /** The publisher's list grows by exactly one entry, the new one last, so the pair's entry count goes up by one. */
  lemma AddEgressKeepsDuplicates(sp: Senders, publisher: SocketId, subscriber: SocketId, pc: Pc)
    ensures var r := AddEgress(sp, publisher, subscriber, pc); var before := EgressOf(sp, publisher);
      && publisher in r
      && |r[publisher]| == |before| + 1
      && r[publisher][..|before|] == before
      && r[publisher][|before|] == Egress(subscriber, pc)
      && |OnlyId(r[publisher], subscriber)| == |OnlyId(before, subscriber)| + 1
      && (forall k :: k != publisher ==> (k in r <==> k in sp))
      && (forall k :: k != publisher && k in sp ==> r[k] == sp[k])
  {
    OnlyIdAppend(EgressOf(sp, publisher), Egress(subscriber, pc), subscriber);
  }

  /** Two offers for the same pair leave two egress entries for it. */
  lemma TwoOffersTwoLinks(sp: Senders, publisher: SocketId, subscriber: SocketId, pc1: Pc, pc2: Pc)
    requires publisher !in sp
    ensures AddEgress(AddEgress(sp, publisher, subscriber, pc1), publisher, subscriber, pc2)[publisher]
         == [Egress(subscriber, pc1), Egress(subscriber, pc2)]
  {
  }

  // ---------------------------------------------------------------------
  // receiverCandidate

  /**
   * The handle of the publisher's first entry for the subscriber; None where
   * the publisher has no list or the list no such entry, the two cases in which
   * the lookup throws.
   */
  function EgressTarget(sp: Senders, publisher: SocketId, subscriber: SocketId): (r: Option<Pc>)
    ensures r.Some? ==> publisher in sp && Egress(subscriber, r.value) in sp[publisher]
  {
    if publisher !in sp then None
    else
      var matching := OnlyId(sp[publisher], subscriber);
      if matching == [] then None else Some(matching[0].pc)
  }

  /**
   * A candidate for a pair goes to the pair's oldest egress entry: a later offer's
   * handle receives candidates only when it is the pair's first entry.
   */
  lemma CandidateGoesToOldest(sp: Senders, publisher: SocketId, subscriber: SocketId, pc: Pc)
    ensures var t := EgressTarget(sp, publisher, subscriber);
      EgressTarget(AddEgress(sp, publisher, subscriber, pc), publisher, subscriber)
        == if t.Some? then t else Some(pc)
  {
    var before := EgressOf(sp, publisher);
    OnlyIdAppend(before, Egress(subscriber, pc), subscriber);
    if publisher !in sp {
      assert OnlyId(before, subscriber) == [];
    }
  }

  lemma TargetSpec(sp: Senders, publisher: SocketId, subscriber: SocketId)
    ensures EgressTarget(sp, publisher, subscriber).Some?
        <==> publisher in sp && HasId(sp[publisher], subscriber)
    ensures EgressTarget(sp, publisher, subscriber).Some? ==>
      Egress(subscriber, EgressTarget(sp, publisher, subscriber).value) in sp[publisher]
  {
    if publisher in sp {
      OnlyIdNonEmpty(sp[publisher], subscriber);
      var m := OnlyId(sp[publisher], subscriber);
      if m != [] {
        assert m[0] in sp[publisher];
      }
    }
  }

  // ---------------------------------------------------------------------
  // closeSenderPCs

  /** Registry and closed handles after (part of) closeSenderPCs; `ok` is false when it threw. */
  datatype Teardown = Teardown(senders: Senders, closed: set<Pc>, ok: bool)

  /**
   * Iteration `i` of the loop of closeSenderPCs(s): it re-reads `senderPCs[s]`,
   * closes entry `i`, then closes the first entry of the subscriber's own list
   * that points back at `s` and drops every such entry from that list.
   */
  function CloseStep(sp: Senders, closed: set<Pc>, s: SocketId, i: nat): (t: Teardown)
    requires s in sp
    ensures t.senders.Keys == sp.Keys
    ensures closed <= t.closed
    ensures |t.senders[s]| <= |sp[s]|
  {
    var list := sp[s];
    if i >= |list| then Teardown(sp, closed, false)       // senderPCs[s][i] is undefined
    else
      var e := list[i];
      var closed1 := closed + {e.pc};
      if e.id !in sp then Teardown(sp, closed1, false)     // the subscriber has no list
      else
        var senderPC := OnlyId(sp[e.id], s);
        if senderPC == [] then Teardown(sp, closed1, true)
        else Teardown(sp[e.id := WithoutId(sp[e.id], s)], closed1 + {senderPC[0].pc}, true)
  }

  /** A step closes and keeps only handles already in the registry. */
  lemma CloseStepBelow(sp: Senders, closed: set<Pc>, s: SocketId, i: nat, n: nat)
    requires s in sp && SendersBelow(sp, n) && ClosedBelow(closed, n)
    ensures var t := CloseStep(sp, closed, s, i); SendersBelow(t.senders, n) && ClosedBelow(t.closed, n)
  {
    if i < |sp[s]| {
      var e := sp[s][i];
      assert e in sp[s];
      if e.id in sp {
        var senderPC := OnlyId(sp[e.id], s);
        if senderPC != [] {
          assert senderPC[0] in sp[e.id];
        }
      }
    }
  }

  /** Iterations `i` to `n - 1`, stopping at the first that throws. */
  function CloseLoop(sp: Senders, closed: set<Pc>, s: SocketId, i: nat, n: nat): (t: Teardown)
    requires s in sp
    ensures t.senders.Keys == sp.Keys
    ensures closed <= t.closed
    decreases n - i
  {
    if i >= n then Teardown(sp, closed, true)
    else
      var t := CloseStep(sp, closed, s, i);
      if !t.ok then t else CloseLoop(t.senders, t.closed, s, i + 1, n)
  }

  /** closeSenderPCs(s): nothing without a list; else the loop over its original length, then the key goes. */
  function CloseSenders(sp: Senders, closed: set<Pc>, s: SocketId): (t: Teardown)
    ensures closed <= t.closed
    ensures t.ok ==> t.senders.Keys == sp.Keys - {s}
    ensures !t.ok ==> s in t.senders && t.senders.Keys == sp.Keys
  {
    if s !in sp then Teardown(sp, closed, true)
    else
      var t := CloseLoop(sp, closed, s, 0, |sp[s]|);
      if t.ok then Teardown(t.senders - {s}, t.closed, true) else t
  }

  /** The loop runs to its end: every subscriber has a list, and only the last entry may point at `s` itself. */
  predicate SafeToClose(sp: Senders, s: SocketId)
    requires s in sp
  {
    && (forall j :: 0 <= j < |sp[s]| ==> sp[s][j].id in sp)
    && (forall j :: 0 <= j < |sp[s]| - 1 ==> sp[s][j].id != s)
  }

  // Reference definitions of what the loop has done once it has handled the entries `subs`.

  /** Every list of a subscriber in `subs` (other than `s`) with the entries pointing at `s` dropped. */
  function Detach(sp: Senders, s: SocketId, subs: seq<Egress>): (r: Senders)
    ensures r.Keys == sp.Keys
  {
    map k | k in sp :: if k != s && HasId(subs, k) then WithoutId(sp[k], s) else sp[k]
  }

  /** The handles of the entries `subs`. */
  function PcsOf(subs: seq<Egress>): set<Pc> {
    if subs == [] then {} else PcsOf(subs[..|subs| - 1]) + {subs[|subs| - 1].pc}
  }

  /** For each subscriber in `subs` other than `s`, the handle of its first entry pointing back at `s`. */
  function Counterparts(sp: Senders, s: SocketId, subs: seq<Egress>): set<Pc> {
    if subs == [] then {}
    else
      var r := subs[|subs| - 1].id;
      Counterparts(sp, s, subs[..|subs| - 1])
        + (if r != s && r in sp && OnlyId(sp[r], s) != [] then {OnlyId(sp[r], s)[0].pc} else {})
  }

  lemma {:induction false} PcsOfMember(subs: seq<Egress>, e: Egress)
    requires e in subs
    ensures e.pc in PcsOf(subs)
  {
    var init := subs[..|subs| - 1];
    assert subs == init + [subs[|subs| - 1]];
    if e != subs[|subs| - 1] {
      PcsOfMember(init, e);
    }
  }

  lemma {:induction false} CounterpartsRepeat(sp: Senders, s: SocketId, subs: seq<Egress>, r: SocketId)
    requires HasId(subs, r) && r != s && r in sp && OnlyId(sp[r], s) != []
    ensures OnlyId(sp[r], s)[0].pc in Counterparts(sp, s, subs)
  {
    var init := subs[..|subs| - 1];
    if subs[|subs| - 1].id != r {
      var i :| 0 <= i < |subs| && subs[i].id == r;
      assert init[i].id == r;
      CounterpartsRepeat(sp, s, init, r);
    }
  }

  lemma DetachNothing(sp: Senders, s: SocketId)
    ensures Detach(sp, s, []) == sp
  {
  }

  lemma HasIdExtend(pre: seq<Egress>, e: Egress, k: SocketId)
    ensures HasId(pre + [e], k) <==> HasId(pre, k) || k == e.id
  {
    var pre' := pre + [e];
    if HasId(pre, k) {
      var j :| 0 <= j < |pre| && pre[j].id == k;
      assert pre'[j].id == k;
    }
    if HasId(pre', k) && k != e.id {
      var j :| 0 <= j < |pre'| && pre'[j].id == k;
      assert pre[j].id == k;
    }
    if k == e.id {
      assert pre'[|pre|].id == k;
    }
  }

  /** Handling one more subscriber `e.id` detaches its list, unless an earlier entry already did. */
  lemma DetachExtend(sp: Senders, s: SocketId, pre: seq<Egress>, e: Egress)
    requires e.id in sp && e.id != s
    ensures Detach(sp, s, pre + [e])
         == if HasId(pre, e.id) then Detach(sp, s, pre) else Detach(sp, s, pre)[e.id := WithoutId(sp[e.id], s)]
  {
    forall k ensures HasId(pre + [e], k) <==> HasId(pre, k) || k == e.id {
      HasIdExtend(pre, e, k);
    }
  }

  lemma CounterpartsExtend(sp: Senders, s: SocketId, pre: seq<Egress>, e: Egress)
    ensures Counterparts(sp, s, pre + [e]) == Counterparts(sp, s, pre)
      + (if e.id != s && e.id in sp && OnlyId(sp[e.id], s) != [] then {OnlyId(sp[e.id], s)[0].pc} else {})
    ensures PcsOf(pre + [e]) == PcsOf(pre) + {e.pc}
  {
    assert (pre + [e])[..|pre + [e]| - 1] == pre;
  }

  /** One step over a subscriber whose list no earlier entry has detached. */
  lemma StepFresh(sp: Senders, s: SocketId, C: set<Pc>, i: nat, pre: seq<Egress>)
    requires s in sp && i < |sp[s]| && pre == sp[s][..i]
    requires sp[s][i].id in sp && sp[s][i].id != s && !HasId(pre, sp[s][i].id)
    ensures var e := sp[s][i];
      CloseStep(Detach(sp, s, pre), C, s, i)
        == Teardown(Detach(sp, s, pre)[e.id := WithoutId(sp[e.id], s)],
                    C + {e.pc} + (if OnlyId(sp[e.id], s) != [] then {OnlyId(sp[e.id], s)[0].pc} else {}), true)
  {
    var e := sp[s][i];
    var cur := Detach(sp, s, pre);
    assert cur[s] == sp[s];
    assert cur[e.id] == sp[e.id];
    if OnlyId(sp[e.id], s) == [] {
      OnlyIdNonEmpty(sp[e.id], s);
      WithoutIdNoOp(sp[e.id], s);
      assert cur[e.id := WithoutId(sp[e.id], s)] == cur;
    }
  }

  /** One step over a subscriber whose list an earlier entry already detached: only its own handle closes. */
  lemma StepRepeat(sp: Senders, s: SocketId, C: set<Pc>, i: nat, pre: seq<Egress>)
    requires s in sp && i < |sp[s]| && pre == sp[s][..i]
    requires sp[s][i].id in sp && sp[s][i].id != s && HasId(pre, sp[s][i].id)
    ensures CloseStep(Detach(sp, s, pre), C, s, i) == Teardown(Detach(sp, s, pre), C + {sp[s][i].pc}, true)
  {
    var e := sp[s][i];
    var cur := Detach(sp, s, pre);
    assert cur[s] == sp[s];
    assert cur[e.id] == WithoutId(sp[e.id], s);
    OnlyIdNonEmpty(cur[e.id], s);
  }

  /** A step on a good entry (its subscriber has a list and is not `s`) keeps the reference state. */
  lemma StepGood(sp: Senders, s: SocketId, c: set<Pc>, i: nat)
    requires s in sp && i < |sp[s]|
    requires sp[s][i].id in sp && sp[s][i].id != s
    ensures var pre, pre' := sp[s][..i], sp[s][..i + 1];
      CloseStep(Detach(sp, s, pre), c + PcsOf(pre) + Counterparts(sp, s, pre), s, i)
        == Teardown(Detach(sp, s, pre'), c + PcsOf(pre') + Counterparts(sp, s, pre'), true)
  {
    var pre, e := sp[s][..i], sp[s][i];
    assert sp[s][..i + 1] == pre + [e];
    var C := c + PcsOf(pre) + Counterparts(sp, s, pre);
    DetachExtend(sp, s, pre, e);
    CounterpartsExtend(sp, s, pre, e);
    if HasId(pre, e.id) {
      StepRepeat(sp, s, C, i, pre);
      if OnlyId(sp[e.id], s) != [] {
        CounterpartsRepeat(sp, s, pre, e.id);
      }
    } else {
      StepFresh(sp, s, C, i, pre);
    }
  }

  lemma DetachSelf(sp: Senders, s: SocketId, pre: seq<Egress>, e: Egress)
    requires e.id == s
    ensures Detach(sp, s, pre + [e]) == Detach(sp, s, pre)
  {
    forall k ensures HasId(pre + [e], k) <==> HasId(pre, k) || k == e.id {
      HasIdExtend(pre, e, k);
    }
  }

  /** The last entry pointing at `s` itself: its step re-filters `s`'s own list, which is deleted next. */
  lemma StepLastSelf(sp: Senders, s: SocketId, c: set<Pc>)
    requires s in sp && |sp[s]| > 0 && sp[s][|sp[s]| - 1].id == s
    ensures var i := |sp[s]| - 1; var pre := sp[s][..i];
      var t := CloseStep(Detach(sp, s, pre), c + PcsOf(pre) + Counterparts(sp, s, pre), s, i);
      && t.ok
      && t.senders - {s} == Detach(sp, s, sp[s]) - {s}
      && t.closed == c + PcsOf(sp[s]) + Counterparts(sp, s, sp[s])
  {
    var i := |sp[s]| - 1;
    var pre, e := sp[s][..i], sp[s][i];
    assert sp[s] == pre + [e];
    var cur := Detach(sp, s, pre);
    assert cur[s] == sp[s];
    var C := c + PcsOf(pre) + Counterparts(sp, s, pre);
    assert HasId(sp[s], s) by { assert sp[s][i].id == s; }
    OnlyIdNonEmpty(sp[s], s);
    var m := OnlyId(sp[s], s);
    assert m[0] in sp[s];
    PcsOfMember(sp[s], m[0]);
    var t := CloseStep(cur, C, s, i);
    assert t == Teardown(cur[s := WithoutId(sp[s], s)], C + {e.pc} + {m[0].pc}, true);
    DetachSelf(sp, s, pre, e);
    CounterpartsExtend(sp, s, pre, e);
    assert cur[s := WithoutId(sp[s], s)] - {s} == cur - {s};
  }

  lemma {:induction false} LoopSafe(sp: Senders, s: SocketId, c: set<Pc>, i: nat)
    requires s in sp && i <= |sp[s]| && SafeToClose(sp, s)
    ensures var pre := sp[s][..i];
      var t := CloseLoop(Detach(sp, s, pre), c + PcsOf(pre) + Counterparts(sp, s, pre), s, i, |sp[s]|);
      && t.ok
      && t.senders - {s} == Detach(sp, s, sp[s]) - {s}
      && t.closed == c + PcsOf(sp[s]) + Counterparts(sp, s, sp[s])
    decreases |sp[s]| - i
  {
    var n := |sp[s]|;
    if i == n {
      assert sp[s][..n] == sp[s];
    } else if sp[s][i].id != s {
      StepGood(sp, s, c, i);
      LoopSafe(sp, s, c, i + 1);
    } else {
      assert i == n - 1;
      StepLastSelf(sp, s, c);
    }
  }

  /** When `s`'s own list is already shorter than the loop bound, the loop ends in the exception. */
  lemma {:induction false} LoopShortFails(cur: Senders, C: set<Pc>, s: SocketId, i: nat, n: nat)
    requires s in cur && i < n && |cur[s]| < n
    ensures !CloseLoop(cur, C, s, i, n).ok
    decreases n - i
  {
    var t := CloseStep(cur, C, s, i);
    if t.ok {
      LoopShortFails(t.senders, t.closed, s, i + 1, n);
    }
  }

  /** An entry that stops the loop: its subscriber has no list, or it points at `s` before the last position. */
  predicate BadEntry(sp: Senders, s: SocketId, j: nat)
    requires s in sp && j < |sp[s]|
  {
    sp[s][j].id !in sp || (j < |sp[s]| - 1 && sp[s][j].id == s)
  }

  /** An entry pointing at `s` before the end re-filters `s`'s own list, so a later iteration reads past it. */
  lemma StepEarlySelfFails(sp: Senders, s: SocketId, C: set<Pc>, i: nat)
    requires s in sp && i < |sp[s]| - 1 && sp[s][i].id == s
    ensures !CloseLoop(Detach(sp, s, sp[s][..i]), C, s, i, |sp[s]|).ok
  {
    var n := |sp[s]|;
    var cur := Detach(sp, s, sp[s][..i]);
    assert cur[s] == sp[s];
    assert HasId(sp[s], s) by { assert sp[s][i].id == s; }
    OnlyIdNonEmpty(sp[s], s);
    WithoutIdShrinks(sp[s], s);
    var t := CloseStep(cur, C, s, i);
    assert t.ok && t.senders[s] == WithoutId(sp[s], s);
    LoopShortFails(t.senders, t.closed, s, i + 1, n);
  }

  lemma StepMissingFails(sp: Senders, s: SocketId, C: set<Pc>, i: nat)
    requires s in sp && i < |sp[s]| && sp[s][i].id !in sp
    ensures !CloseLoop(Detach(sp, s, sp[s][..i]), C, s, i, |sp[s]|).ok
  {
    var cur := Detach(sp, s, sp[s][..i]);
    assert cur[s] == sp[s];
  }

  lemma {:induction false} LoopUnsafe(sp: Senders, s: SocketId, c: set<Pc>, i: nat, j: nat)
    requires s in sp && i <= j < |sp[s]| && BadEntry(sp, s, j)
    ensures var pre := sp[s][..i];
      !CloseLoop(Detach(sp, s, pre), c + PcsOf(pre) + Counterparts(sp, s, pre), s, i, |sp[s]|).ok
    decreases |sp[s]| - i
  {
    var e := sp[s][i];
    var pre := sp[s][..i];
    var C := c + PcsOf(pre) + Counterparts(sp, s, pre);
    if e.id !in sp {
      StepMissingFails(sp, s, c + PcsOf(sp[s][..i]) + Counterparts(sp, s, sp[s][..i]), i);
    } else if e.id == s {
      assert i < |sp[s]| - 1;
      StepEarlySelfFails(sp, s, c + PcsOf(sp[s][..i]) + Counterparts(sp, s, sp[s][..i]), i);
    } else {
      StepGood(sp, s, c, i);
      var pre' := sp[s][..i + 1];
      var t := CloseStep(Detach(sp, s, pre), C, s, i);
      assert t.ok && t.senders == Detach(sp, s, pre') && t.closed == c + PcsOf(pre') + Counterparts(sp, s, pre');
      LoopUnsafe(sp, s, c, i + 1, j);
    }
  }

  /** closeSenderPCs completes exactly when the loop never reads past the list nor dereferences a missing list. */
  lemma CloseSendersOkIff(sp: Senders, closed: set<Pc>, s: SocketId)
    ensures s !in sp ==> CloseSenders(sp, closed, s) == Teardown(sp, closed, true)
    ensures s in sp ==> (CloseSenders(sp, closed, s).ok <==> SafeToClose(sp, s))
  {
    if s in sp {
      assert sp[s][..0] == [];
      DetachNothing(sp, s);
      if SafeToClose(sp, s) {
        LoopSafe(sp, s, closed, 0);
      } else {
        if exists j :: 0 <= j < |sp[s]| && sp[s][j].id !in sp {
          var j :| 0 <= j < |sp[s]| && sp[s][j].id !in sp;
          LoopUnsafe(sp, s, closed, 0, j);
        } else {
          var j :| 0 <= j < |sp[s]| - 1 && sp[s][j].id == s;
          LoopUnsafe(sp, s, closed, 0, j);
        }
      }
    }
  }

  /** The state a completed closeSenderPCs leaves, against the reference definitions. */
  lemma CloseSendersEffect(sp: Senders, closed: set<Pc>, s: SocketId)
    requires s in sp && SafeToClose(sp, s)
    ensures var t := CloseSenders(sp, closed, s);
      && t.ok
      && t.senders == Detach(sp, s, sp[s]) - {s}
      && t.closed == closed + PcsOf(sp[s]) + Counterparts(sp, s, sp[s])
  {
    assert sp[s][..0] == [];
    DetachNothing(sp, s);
    LoopSafe(sp, s, closed, 0);
  }

  lemma WithoutIdClean(es: seq<Egress>, id: SocketId)
    ensures !HasId(WithoutId(es, id), id)
  {
    var r := WithoutId(es, id);
    forall i | 0 <= i < |r| ensures r[i].id != id {
      assert r[i] in r;
    }
  }

  /**
   * After a completed closeSenderPCs(s): `s` has no list; each subscriber's list
   * has lost its entries for `s`; every other list is as it was (including a
   * publisher's entry for `s` that `s` was not itself publishing to).
   */
  lemma CloseSendersDetaches(sp: Senders, closed: set<Pc>, s: SocketId)
    requires s in sp && SafeToClose(sp, s)
    ensures var t := CloseSenders(sp, closed, s);
      && t.ok
      && t.senders.Keys == sp.Keys - {s}
      && (forall k :: k in t.senders && HasId(sp[s], k) ==> t.senders[k] == WithoutId(sp[k], s) && !HasId(t.senders[k], s))
      && (forall k :: k in t.senders && !HasId(sp[s], k) ==> t.senders[k] == sp[k])
  {
    CloseSendersEffect(sp, closed, s);
    forall k | k in sp ensures !HasId(WithoutId(sp[k], s), s) {
      WithoutIdClean(sp[k], s);
    }
  }

  /** ... and it has closed the handles of `s`'s own entries and each subscriber's first entry pointing back at `s`. */
  lemma CloseSendersCloses(sp: Senders, closed: set<Pc>, s: SocketId)
    requires s in sp && SafeToClose(sp, s)
    ensures var t := CloseSenders(sp, closed, s);
      && closed <= t.closed
      && (forall j :: 0 <= j < |sp[s]| ==> sp[s][j].pc in t.closed)
      && (forall j :: 0 <= j < |sp[s]| && sp[s][j].id != s && OnlyId(sp[sp[s][j].id], s) != [] ==>
            OnlyId(sp[sp[s][j].id], s)[0].pc in t.closed)
  {
    CloseSendersEffect(sp, closed, s);
    var t := CloseSenders(sp, closed, s);
    forall j | 0 <= j < |sp[s]| ensures sp[s][j].pc in t.closed {
      PcsOfMember(sp[s], sp[s][j]);
    }
    forall j | 0 <= j < |sp[s]| && sp[s][j].id != s && OnlyId(sp[sp[s][j].id], s) != []
      ensures OnlyId(sp[sp[s][j].id], s)[0].pc in t.closed
    {
      assert HasId(sp[s], sp[s][j].id);
      CounterpartsRepeat(sp, s, sp[s], sp[s][j].id);
    }
  }

  /** A subscriber without its own list makes closeSenderPCs throw partway: the key `s` is not deleted. */
  lemma CloseSendersPartialFailure(sp: Senders, closed: set<Pc>, s: SocketId, j: nat)
    requires s in sp && j < |sp[s]| && sp[s][j].id !in sp
    ensures var t := CloseSenders(sp, closed, s);
      !t.ok && s in t.senders && t.senders.Keys == sp.Keys && closed <= t.closed
  {
    CloseSendersOkIff(sp, closed, s);
  }
}
