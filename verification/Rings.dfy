/** Circular doubly linked lists through a sentinel, as index arrays: `next[i]` and
    `prev[i]` are the links of node i. */
module Rings {

  ghost predicate Distinct(s: seq<nat>) {
    forall i, j :: 0 <= i < j < |s| ==> s[i] != s[j]
  }

  /** The nodes met by following `next` from the sentinel until it comes round. */
  ghost function Cycle(head: nat, order: seq<nat>): (c: seq<nat>)
    ensures |c| == |order| + 2
  {
    [head] + order + [head]
  }

  ghost predicate Linked(next: seq<nat>, prev: seq<nat>, a: nat, b: nat) {
    a < |next| && b < |prev| && next[a] == b && prev[b] == a
  }

  /** The links form one cycle: the sentinel, then `order`, then the sentinel again,
      with `prev` the inverse of `next`. */
  ghost predicate Ring(next: seq<nat>, prev: seq<nat>, head: nat, order: seq<nat>) {
    && |next| == |prev| && head < |next|
    && head !in order && Distinct(order)
    && (forall i :: 0 <= i < |order| ==> order[i] < |next|)
    && (forall i :: 0 <= i <= |order| ==> Linked(next, prev, Cycle(head, order)[i], Cycle(head, order)[i + 1]))
  }

  ghost function Without(order: seq<nat>, p: nat): seq<nat>
    requires p < |order|
  {
    order[..p] + order[p + 1..]
  }

  /** `b->next->prev = b->prev; b->prev->next = b->next` takes one node out. */
  lemma Unlink(next: seq<nat>, prev: seq<nat>, head: nat, order: seq<nat>, p: nat)
    requires Ring(next, prev, head, order) && p < |order|
    ensures var b := order[p];
            && next[b] < |prev| && prev[b] < |next| && next[b] != b
            && Ring(next[prev[b] := next[b]], prev[next[b] := prev[b]], head, Without(order, p))
  {
    var b, c := order[p], Cycle(head, order);
    assert Linked(next, prev, c[p], c[p + 1]) && Linked(next, prev, c[p + 1], c[p + 2]);
    var next', prev' := next[prev[b] := next[b]], prev[next[b] := prev[b]];
    var order' := Without(order, p);
    var c' := Cycle(head, order');
    forall i | 0 <= i <= |order'|
      ensures Linked(next', prev', c'[i], c'[i + 1])
    {
      if i < p {
        assert c'[i] == c[i] && c'[i + 1] == c[i + 1] && Linked(next, prev, c[i], c[i + 1]);
      } else if i > p {
        assert c'[i] == c[i + 1] && c'[i + 1] == c[i + 2] && Linked(next, prev, c[i + 1], c[i + 2]);
      }
    }
  }

  /** `b->next = head.next; b->prev = &head; head.next->prev = b; head.next = b`
      puts a node first. */
  lemma PushFront(next: seq<nat>, prev: seq<nat>, head: nat, order: seq<nat>, b: nat)
    requires Ring(next, prev, head, order)
    requires b < |next| && b != head && b !in order
    ensures next[head] < |prev|
    ensures Ring(next[b := next[head]][head := b], prev[b := head][next[head] := b], head, [b] + order)
  {
    var c := Cycle(head, order);
    assert Linked(next, prev, c[0], c[1]);
    var next', prev' := next[b := next[head]][head := b], prev[b := head][next[head] := b];
    var order' := [b] + order;
    var c' := Cycle(head, order');
    forall i | 0 <= i <= |order'|
      ensures Linked(next', prev', c'[i], c'[i + 1])
    {
      if i > 1 {
        assert c'[i] == c[i - 1] && c'[i + 1] == c[i] && Linked(next, prev, c[i - 1], c[i]);
      }
    }
  }
}
