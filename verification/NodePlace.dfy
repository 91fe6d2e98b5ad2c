/** What an insertion leaves in each slot, told by the table before it: only the first node of each home moves,
    to where the first node of the next home was. */
module NodePlace {
  import opened NodeTable

  /** The walk of an insertion that starts in slot `h` gets to slot `p`: all slots on the way are full. */
  ghost predicate Walked<V>(t: Table<V>, h: nat, p: nat)
    requires h < |t| && p < |t|
  {
    forall r :: 0 <= r < |t| && Distance(h, r, |t|) < Distance(h, p, |t|) ==> t[r].Full?
  }

  /** No node with the same home comes right before. */
  predicate Heads<V>(hash: nat -> nat, t: Table<V>, p: nat)
    requires p < |t| && t[p].Full?
  {
    var q := Previous(p, |t|);
    t[q].Open? || Home(hash, t[q].key, |t|) != Home(hash, t[p].key, |t|)
  }

  /** The slot of the first node with the home of the one in slot `p`. */
  function FirstOf<V>(hash: nat -> nat, t: Table<V>, p: nat): (q: nat)
    requires p < |t| && t[p].Full?
    ensures q < |t| && t[q].Full?
    decreases Psl(hash, t, p)
  {
    if Heads(hash, t, p) || Psl(hash, t, p) == 0 then p else FirstOf(hash, t, Previous(p, |t|))
  }

  /** The insertion of a node with home `h` changes slot `p`. */
  ghost predicate Moves<V>(hash: nat -> nat, t: Table<V>, h: nat, p: nat)
    requires h < |t| && p < |t|
  {
    Walked(t, h, p) && (t[p].Full? ==> Psl(hash, t, p) < Distance(h, p, |t|) && Heads(hash, t, p))
  }

  /** The insertion gets to slot `p` with the new node still in hand. */
  predicate Lands<V>(hash: nat -> nat, t: Table<V>, h: nat, p: nat)
    requires h < |t| && p < |t|
  {
    p == h || (var q := Previous(p, |t|); t[q].Full? && Psl(hash, t, q) >= Distance(h, q, |t|))
  }

  /** What the insertion has in hand when it gets to slot `p`. */
  function InHand<V>(hash: nat -> nat, t: Table<V>, node: Node<V>, h: nat, p: nat): Node<V>
    requires h < |t| && p < |t|
  {
    if Lands(hash, t, h, p) || t[Previous(p, |t|)].Open? then node else t[FirstOf(hash, t, Previous(p, |t|))]
  }

  /** How far from home the node in hand is in slot `p`. */
  function Strayed<V>(hash: nat -> nat, t: Table<V>, h: nat, p: nat): nat
    requires h < |t| && p < |t|
  {
    if Lands(hash, t, h, p) || t[Previous(p, |t|)].Open? then Distance(h, p, |t|)
    else Psl(hash, t, Previous(p, |t|)) + 1
  }

  /** A table that is as before from slot `s` on. */
  ghost predicate SameAhead<V>(t: Table<V>, t': Table<V>, h: nat, s: nat)
    requires h < |t| && s < |t|
  {
    |t'| == |t| && forall r :: 0 <= r < |t| && Distance(h, r, |t|) >= Distance(h, s, |t|) ==> t'[r] == t[r]
  }

  /** The node in hand goes in exactly where a home has its first node, past all nodes of its own home. */
  lemma SwapsAtHeads<V>(hash: nat -> nat, t: Table<V>, h: nat, s: nat, o: nat)
    requires AllRobin(hash, t) && h < |t| && s < |t| && o < |t| && t[o].Open? && t[s].Full?
    requires s != h ==> t[Previous(s, |t|)].Full?
    ensures Strayed(hash, t, h, s) > Psl(hash, t, s) <==> Psl(hash, t, s) < Distance(h, s, |t|) && Heads(hash, t, s)
  {
    hide Home;
    assert Robin(hash, t, s);
    if t[Previous(s, |t|)].Full? { PslBound(hash, t, Previous(s, |t|), o); }
  }

  /** What is in hand one slot further on. */
  lemma HandNext<V>(hash: nat -> nat, t: Table<V>, node: Node<V>, h: nat, s: nat, o: nat)
    requires AllRobin(hash, t) && h < |t| && s < |t| && o < |t| && t[o].Open? && t[s].Full?
    requires (s != h ==> t[Previous(s, |t|)].Full?) && Next(s, |t|) != h
    ensures var next := Next(s, |t|);
      if Strayed(hash, t, h, s) > Psl(hash, t, s)
      then InHand(hash, t, node, h, next) == t[s] && Strayed(hash, t, h, next) == Psl(hash, t, s) + 1
      else InHand(hash, t, node, h, next) == InHand(hash, t, node, h, s)
           && Strayed(hash, t, h, next) == Strayed(hash, t, h, s) + 1
  {
    hide Home;
    SwapsAtHeads(hash, t, h, s, o);
    assert Robin(hash, t, s) && Previous(Next(s, |t|), |t|) == s;
    if t[Previous(s, |t|)].Full? { PslBound(hash, t, Previous(s, |t|), o); }
  }

  /** The loop does not get past an open slot. */
  lemma {:induction false} CarryStops<V>(hash: nat -> nat, t: Table<V>, node: Node<V>, s: nat, dist: nat, gas: nat,
                                         o: nat, p: nat)
    requires s < |t| && node.Full? && o < |t| && t[o].Open? && p < |t| && Distance(s, p, |t|) > Distance(s, o, |t|)
    ensures Carry(hash, t, node, s, dist, gas)[p] == t[p]
    decreases gas
  {
    hide Psl;
    if gas > 0 && t[s].Full? {
      var next := Next(s, |t|);
      if dist > Psl(hash, t, s) {
        CarryStops(hash, t[s := node], t[s], next, Psl(hash, t, s) + 1, gas - 1, o, p);
      } else {
        CarryStops(hash, t, node, next, dist + 1, gas - 1, o, p);
      }
    }
  }

  lemma WalkedBefore<V>(t: Table<V>, h: nat, p: nat)
    requires h < |t| && p < |t| && p != h && Walked(t, h, p)
    ensures var s := Previous(p, |t|);
      && Distance(h, p, |t|) == Distance(h, s, |t|) + 1 && Next(s, |t|) == p && Walked(t, h, s) && t[s].Full?
      && (s != h ==> t[Previous(s, |t|)].Full?)
  {
  }

  lemma SameAheadNext<V>(t: Table<V>, t': Table<V>, h: nat, s: nat, hand: Node<V>)
    requires h < |t| && s < |t| && Next(s, |t|) != h && SameAhead(t, t', h, s)
    ensures t'[s] == t[s] && SameAhead(t, t', h, Next(s, |t|)) && SameAhead(t, t'[s := hand], h, Next(s, |t|))
  {
  }

  /** One round of the loop in a full slot of a table that is as before there. */
  lemma CarryStep<V>(hash: nat -> nat, t: Table<V>, t': Table<V>, hand: Node<V>, s: nat, dist: nat, gas: nat)
    requires s < |t| == |t'| && t[s].Full? && t'[s] == t[s] && hand.Full? && gas > 0
    ensures Carry(hash, t', hand, s, dist, gas) ==
      if dist > Psl(hash, t, s)
      then Carry(hash, t'[s := hand], t[s], Next(s, |t|), Psl(hash, t, s) + 1, gas - 1)
      else Carry(hash, t', hand, Next(s, |t|), dist + 1, gas - 1)
  {
    hide Home;
  }

  lemma StartsHome<V>(hash: nat -> nat, t: Table<V>, node: Node<V>, h: nat)
    requires h < |t|
    ensures InHand(hash, t, node, h, h) == node && Strayed(hash, t, h, h) == 0 && SameAhead(t, t, h, h)
  {
  }

  /** The loop gets to every slot that the walk gets to, with the table as it was from there on. */
  lemma {:induction false} CarryArrives<V>(hash: nat -> nat, t: Table<V>, node: Node<V>, p: nat, o: nat)
      returns (t': Table<V>)
    requires AllRobin(hash, t) && node.Full? && o < |t| && t[o].Open? && p < |t|
    requires Walked(t, Home(hash, node.key, |t|), p)
    ensures var h := Home(hash, node.key, |t|);
      && SameAhead(t, t', h, p)
      && InHand(hash, t, node, h, p).Full?
      && Place(hash, t, node) ==
         Carry(hash, t', InHand(hash, t, node, h, p), p, Strayed(hash, t, h, p), |t| - Distance(h, p, |t|))
    decreases Distance(Home(hash, node.key, |t|), p, |t|)
  {
    hide Home, Psl, Carry, InHand, Strayed, Walked, SameAhead, AllRobin;
    var n := |t|;
    var h := Home(hash, node.key, n);
    if p == h {
      t' := t;
      StartsHome(hash, t, node, h);
    } else {
      WalkedBefore(t, h, p);
      var s := Previous(p, n);
      var t1 := CarryArrives(hash, t, node, s, o);
      var hand := InHand(hash, t, node, h, s);
      HandNext(hash, t, node, h, s, o);
      SameAheadNext(t, t1, h, s, hand);
      SameLength(t, t1, h, s);
      CarryStep(hash, t, t1, hand, s, Strayed(hash, t, h, s), n - Distance(h, s, n));
      t' := if Strayed(hash, t, h, s) > Psl(hash, t, s) then t1[s := hand] else t1;
    }
  }

  lemma SameLength<V>(t: Table<V>, t': Table<V>, h: nat, s: nat)
    requires h < |t| && s < |t| && SameAhead(t, t', h, s)
    ensures |t'| == |t| && t'[s] == t[s]
    ensures forall o :: 0 <= o < |t| && t[o].Open? && Walked(t, h, s) ==> t'[o].Open?
  {
  }

  /** What an insertion leaves in a slot that its walk gets to. */
  lemma PlaceWalked<V>(hash: nat -> nat, t: Table<V>, node: Node<V>, p: nat, o: nat)
    requires AllRobin(hash, t) && node.Full? && o < |t| && t[o].Open? && p < |t|
    requires Walked(t, Home(hash, node.key, |t|), p)
    ensures var h := Home(hash, node.key, |t|);
      Place(hash, t, node)[p] == if Moves(hash, t, h, p) then InHand(hash, t, node, h, p) else t[p]
  {
    hide Home, Psl, Carry, Heads, InHand, Strayed, Walked, SameAhead, AllRobin, Place;
    var n := |t|;
    var h := Home(hash, node.key, n);
    var t' := CarryArrives(hash, t, node, p, o);
    var hand, gas := InHand(hash, t, node, h, p), n - Distance(h, p, n);
    SameLength(t, t', h, p);
    if t[p].Full? {
      if p != h { WalkedBefore(t, h, p); }
      SwapsAtHeads(hash, t, h, p, o);
      CarryStep(hash, t, t', hand, p, Strayed(hash, t, h, p), gas);
      var next := Next(p, n);
      if Strayed(hash, t, h, p) > Psl(hash, t, p) {
        CarryStops(hash, t'[p := hand], t[p], next, Psl(hash, t, p) + 1, gas - 1, o, p);
      } else {
        CarryStops(hash, t', hand, next, Strayed(hash, t, h, p) + 1, gas - 1, o, p);
      }
    } else {
      CarryEnds(hash, t', hand, p, Strayed(hash, t, h, p), gas);
    }
  }

  lemma MovesOver<V>(hash: nat -> nat, t: Table<V>, h: nat, p: nat)
    requires h < |t| && p < |t| && Moves(hash, t, h, p)
    ensures Lands(hash, t, h, p) || t[Previous(p, |t|)].Full?
  {
    hide Home, Psl, Heads;
    if p != h { WalkedBefore(t, h, p); }
  }

  lemma CarryEnds<V>(hash: nat -> nat, t: Table<V>, hand: Node<V>, s: nat, dist: nat, gas: nat)
    requires s < |t| && t[s].Open? && hand.Full? && gas > 0
    ensures Carry(hash, t, hand, s, dist, gas) == t[s := hand]
  {
  }

  /** What an insertion leaves in each slot. */
  lemma PlaceExactly<V>(hash: nat -> nat, t: Table<V>, node: Node<V>, p: nat)
    requires Good(hash, t) && node.Full? && |Where(t)| < |t| && p < |t|
    ensures var h := Home(hash, node.key, |t|);
      Place(hash, t, node)[p] == if Moves(hash, t, h, p) then InHand(hash, t, node, h, p) else t[p]
  {
    hide Home, Psl, Heads, InHand, Where, Unique, AllRobin, Carry;
    var n := |t|;
    var h := Home(hash, node.key, n);
    if Walked(t, h, p) {
      var o := OpenSlot(t, Where(t));
      PlaceWalked(hash, t, node, p, o);
    } else {
      var r :| 0 <= r < n && Distance(h, r, n) < Distance(h, p, n) && t[r].Open?;
      CarryStops(hash, t, node, h, 0, n, r, p);
    }
  }
}
