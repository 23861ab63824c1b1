/**
 * The doubly linked list of waiting selects (select_cb_list), with the pointer updates of
 * sal_select.  `order` is the list as a sequence, the view SelectProtocol.dfy works on.
 */
module SelectList {
  import opened Orders
  import opened SelectProtocol

  class SelectCb {
    var next: SelectCb?
    var prev: SelectCb?
    var semSignalled: bool

    constructor ()
      ensures next == null && prev == null && !semSignalled
    {
      next, prev, semSignalled := null, null, false;
    }
  }

  /** The node at position `i`, null off either end. */
  function At(order: seq<SelectCb>, i: int): SelectCb? {
    if 0 <= i < |order| then order[i] else null
  }

  /** Every node points to its neighbours in `order`. */
  ghost predicate Linked(order: seq<SelectCb>)
    reads order
  {
    && (forall i {:trigger order[i].next} :: 0 <= i < |order| ==> order[i].next == At(order, i + 1))
    && (forall i {:trigger order[i].prev} :: 0 <= i < |order| ==> order[i].prev == At(order, i - 1))
  }

  /** Once its neighbours point past node `k`, the rest is linked without it. */
  lemma LinkedCut(was: seq<SelectCb>, k: nat)
    requires k < |was| && Distinct(was)
    requires forall j {:trigger was[j].next} :: 0 <= j < |was| ==>
              was[j].next == if j == k - 1 then At(was, k + 1) else At(was, j + 1)
    requires forall j {:trigger was[j].prev} :: 0 <= j < |was| ==>
              was[j].prev == if j == k + 1 then At(was, k - 1) else At(was, j - 1)
    ensures Linked(was[..k] + was[k + 1..]) && Distinct(was[..k] + was[k + 1..])
  {
    var cut := was[..k] + was[k + 1..];
    forall i | 0 <= i < |cut| ensures cut[i].next == At(cut, i + 1) && cut[i].prev == At(cut, i - 1) {
      assert cut[i] == was[if i < k then i else i + 1];
    }
  }

  class SelectCbList {
    var head: SelectCb?
    var ctr: nat
    ghost var order: seq<SelectCb>

    ghost predicate Valid()
      reads this, order
    {
      && ctr < CTR_RANGE
      && Distinct(order)
      && head == At(order, 0)
      && Linked(order)
    }

    constructor ()
      ensures Valid() && order == [] && ctr == 0
    {
      head, ctr, order := null, 0, [];
    }

    /** Puts `scb` on top of the list. */
    method Insert(scb: SelectCb)
      requires Valid() && scb !in order
      modifies this, scb, (set c | c in order)`prev
      ensures Valid() && order == [scb] + old(order) && ctr == (old(ctr) + 1) % CTR_RANGE
      ensures !scb.semSignalled
    {
      scb.next := null;
      scb.prev := null;
      scb.semSignalled := false;
      scb.next := head;
      if head != null {
        assert head == order[0];
        head.prev := scb;
      }
      head := scb;
      ctr := (ctr + 1) % CTR_RANGE;
      ghost var was := order;
      order := [scb] + order;
      forall i | 0 <= i < |order|
        ensures order[i].next == At(order, i + 1)
        ensures order[i].prev == At(order, i - 1)
      {
        if i > 0 {
          assert order[i] == was[i - 1] && old(was[i - 1].next) == At(was, i);
        }
      }
    }

    /** Takes `scb` off the list, wherever it is. */
    method Remove(scb: SelectCb)
      requires Valid() && scb in order
      modifies this, (set c | c in order)`next, (set c | c in order)`prev
      ensures Valid() && order == Without(old(order), scb) && ctr == (old(ctr) + 1) % CTR_RANGE
    {
      ghost var k: int, was := Index(order, scb), order;
      assert was[k].next == At(was, k + 1) && was[k].prev == At(was, k - 1);
      if scb.next != null {
        scb.next.prev := scb.prev;
      }
      if head == scb {
        head := scb.next;
      } else {
        scb.prev.next := scb.next;
      }
      ctr := (ctr + 1) % CTR_RANGE;
      order := was[..k] + was[k + 1..];
      LinkedCut(was, k);
    }

    /** One move of the notifier's loop: `next` of a node that is still listed. */
    method Next(scb: SelectCb) returns (next: SelectCb?)
      requires Valid() && scb in order
      ensures After(order, scb) == if next == null then [] else [next]
    {
      next := scb.next;
    }
  }
}
