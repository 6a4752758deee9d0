/** The doubly linked message list of libburn/libdax_msgs.c on the heap. */
module MessageQueue {
  import opened Messages

  class Item {
    const message: Message
    var prev: Item?
    var next: Item?
    /** Whether the memory has not been freed yet. */
    ghost var live: bool

    /** libdax_msgs_item_new: linked in right behind the given item */
    constructor (message: Message, link: Item?)
      requires link != null ==> link.live && (link.next != null ==> link.next.live && link.next != link)
      modifies if link == null then {} else {link} + (if link.next == null then {} else {link.next as object})
      ensures live && this.message == message && prev == link
      ensures next == if link == null then null else old(link.next)
      ensures link != null ==> link.next == this && link.prev == old(link.prev) && link.live
      ensures link != null && old(link.next) != null ==>
                var n := old(link.next);
                n.prev == this && n.next == old(n.next) && n.live
    {
      this.message := message;
      this.live := true;
      this.prev := link;
      this.next := null;
      new;
      if link != null {
        if link.next != null {
          link.next.prev := this;
          this.next := link.next;
        }
        link.next := this;
      }
    }
  }

  ghost predicate Distinct(items: seq<Item>)
  {
    forall i, j | 0 <= i < j < |items| :: items[i] != items[j]
  }

  function At(items: seq<Item>, i: int): Item?
  {
    if 0 <= i < |items| then items[i] else null
  }

  /** Item i is in use and knows its neighbours. */
  ghost predicate Joined(items: seq<Item>, i: nat)
    requires i < |items|
    reads items[i]
  {
    items[i].live && items[i].prev == At(items, i - 1) && items[i].next == At(items, i + 1)
  }

  /** Item i, now that item k is bypassed */
  ghost predicate Rejoined(items: seq<Item>, i: nat, k: nat)
    requires i < |items| && k < |items|
    reads items[i]
  {
    && items[i].live
    && items[i].prev == At(items, if i == k + 1 then k - 1 else i - 1)
    && items[i].next == At(items, if i == k - 1 then k + 1 else i + 1)
  }

  ghost function Texts(items: seq<Item>): (q: seq<Message>)
    ensures |q| == |items| && forall i | 0 <= i < |q| :: q[i] == items[i].message
  {
    seq(|items|, i requires 0 <= i < |items| => items[i].message)
  }

  lemma TextsRemoved(items: seq<Item>, k: nat)
    requires k < |items|
    ensures Texts(items[..k] + items[k + 1..]) == Texts(items)[..k] + Texts(items)[k + 1..]
  {
  }

  /** Item i when the first k have been destroyed */
  ghost predicate Remaining(items: seq<Item>, i: nat, k: nat)
    requires k <= i < |items|
    reads items[i]
  {
    items[i].live && items[i].prev == (if i == k then null else At(items, i - 1)) && items[i].next == At(items, i + 1)
  }

  const NEVER: int := 0x7fff_ffff

  class Queue {
    var oldest: Item?
    var youngest: Item?
    var count: nat
    var queueSeverity: int
    var printSeverity: int
    var printId: string
    var refcount: nat
    /** What has been written to stderr, each message behind the identification of its time. */
    var printed: seq<(string, Message)>
    /** The items from oldest to youngest. */
    ghost var items: seq<Item>

    ghost predicate Linked()
      reads this, items
    {
      && Distinct(items)
      && forall i | 0 <= i < |items| :: Joined(items, i)
    }

    ghost predicate Valid()
      reads this, items
    {
      && Linked()
      && oldest == At(items, 0)
      && youngest == At(items, |items| - 1)
      && refcount >= 1
    }

    ghost function Contents(): seq<Message>
      reads this
    {
      Texts(items)
    }

    /** libdax_msgs_new; all messages are queued and, but for the highest severity, none is printed */
    constructor ()
      ensures Valid() && Contents() == [] && refcount == 1 && count == 0 && items == []
      ensures queueSeverity == 0 && printSeverity == NEVER && printId == "libdax: " && printed == []
    {
      refcount := 1;
      oldest := null;
      youngest := null;
      count := 0;
      queueSeverity := 0;
      printSeverity := NEVER;
      printId := "libdax: ";
      printed := [];
      items := [];
    }

    /** The identification is cut to 80 characters. */
    method SetSeverities(queueSeverity: int, printSeverity: int, printId: string)
      requires Valid()
      modifies this`queueSeverity, this`printSeverity, this`printId
      ensures Valid() && Contents() == old(Contents())
      ensures this.queueSeverity == queueSeverity && this.printSeverity == printSeverity
      ensures this.printId <= printId && |this.printId| == if |printId| < 80 then |printId| else 80
    {
      this.queueSeverity, this.printSeverity := queueSeverity, printSeverity;
      this.printId := if |printId| < 80 then printId else printId[..80];
    }

    /** libdax_msgs_submit: severe enough messages are printed, queued, or both. */
    method SubmitMessage(message: Message) returns (stored: bool)
      requires Valid()
      modifies this, items
      ensures Valid() && Contents() == Submit(old(Contents()), message, queueSeverity)
      ensures stored == (message.severity >= queueSeverity) && count == old(count) + if stored then 1 else 0
      ensures printed == old(printed) + if message.severity >= printSeverity then [(printId, message)] else []
      ensures queueSeverity == old(queueSeverity) && printSeverity == old(printSeverity) && printId == old(printId)
      ensures refcount == old(refcount)
      ensures fresh(set i | i in items && i !in old(items))
    {
      if message.severity >= printSeverity {
        printed := printed + [(printId, message)];
      }
      if message.severity < queueSeverity {
        return false;
      }
      assert youngest != null ==> Joined(items, |items| - 1);
      var item := new Item(message, youngest);
      if oldest == null {
        oldest := item;
      }
      youngest := item;
      count := count + 1;
      items := items + [item];
      forall i | 0 <= i < |items|
        ensures Joined(items, i)
      {
        assert i < |items| - 1 ==> old(Joined(items, i));
      }
      stored := true;
    }

    /** The pointer changes of libdax_msgs_item_unlink at the item and its neighbours */
    method Bypass(o: Item, ghost k: nat)
      requires Linked() && k < |items| && items[k] == o
      modifies set i | 0 <= i < |items| :: items[i]`prev, set i | 0 <= i < |items| :: items[i]`next
      ensures o.prev == old(o.prev) && o.next == old(o.next)
      ensures forall i | 0 <= i < |items| && i != k :: Rejoined(items, i, k)
    {
      assert Joined(items, k) && (k > 0 ==> Joined(items, k - 1)) && (k + 1 < |items| ==> Joined(items, k + 1));
      if o.prev != null {
        o.prev.next := o.next;
      }
      if o.next != null {
        o.next.prev := o.prev;
      }
      forall i | 0 <= i < |items| && i != k
        ensures Rejoined(items, i, k)
      {
        assert old(Joined(items, i));
      }
    }

    /** libdax_msgs_item_unlink with both chain ends of this queue */
    method Detach(o: Item, ghost k: nat)
      requires Valid() && k < |items| && items[k] == o
      modifies this`oldest, this`youngest, items
      ensures Distinct(items) && forall i | 0 <= i < |items| && i != k :: Rejoined(items, i, k)
      ensures oldest == At(items, if k == 0 then 1 else 0)
      ensures youngest == At(items, if k == |items| - 1 then k - 1 else |items| - 1)
      ensures o.prev == null && o.next == null && o.live
    {
      assert Joined(items, k);
      Bypass(o, k);
      if oldest == o {
        oldest := o.next;
      }
      if youngest == o {
        youngest := o.prev;
      }
      o.next := null;
      o.prev := null;
    }

    method Unlink(o: Item, ghost k: nat)
      requires Valid() && k < |items| && items[k] == o
      modifies this`oldest, this`youngest, this`items, items
      ensures Valid() && items == old(items)[..k] + old(items)[k + 1..]
      ensures Contents() == old(Contents())[..k] + old(Contents())[k + 1..]
      ensures o.prev == null && o.next == null && o.live && o !in items
    {
      hide Texts; hide Joined; hide Rejoined; hide At;
      Detach(o, k);
      TextsRemoved(items, k);
      Removed(items, k);
      items := items[..k] + items[k + 1..];
    }

    /** libdax_msgs_item_destroy of an item that is in no queue any more */
    static method Free(o: Item)
      requires o.live && o.prev == null && o.next == null
      modifies o`live
      ensures !o.live
    {
      o.live := false;
    }

    /** One step of the walk: the item at k is dropped. */
    method Drop(im: Item, ghost k: nat)
      requires Valid() && k < |items| && items[k] == im
      modifies this`oldest, this`youngest, this`items, items
      ensures Valid() && items == old(items)[..k] + old(items)[k + 1..]
      ensures Contents() == old(Contents())[..k] + old(Contents())[k + 1..]
      ensures !im.live
      ensures im !in items
    {
      Unlink(im, k);
      Free(im);
    }

    /** The walk of libdax_msgs_obtain over the queue q stands at item k: the items before it
        stay, all others that are gone have been freed. */
    ghost predicate Walking(im: Item?, k: nat, q: seq<Message>, was: seq<Item>, severity: int, priority: int)
      reads this, items, was
    {
      && Valid() && k <= |items| && im == At(items, k)
      && SoFar(q, Contents()[..k], Contents()[k..], severity, priority)
      && (forall i | 0 <= i < |items| :: items[i] in was)
      && (forall o | o in was && o !in items :: !o.live)
    }

    method DropOne(im: Item, next: Item?, ghost k: nat, ghost q: seq<Message>, ghost was: seq<Item>, severity: int,
                   priority: int)
      requires Walking(im, k, q, was, severity, priority) && im.message.severity < severity && next == im.next
      modifies this`oldest, this`youngest, this`items, was
      ensures Walking(next, k, q, was, severity, priority) && |items| == old(|items|) - 1
    {
      hide SoFar; hide Texts; hide Linked;
      ghost var before, gone := Contents(), items;
      TextAt(items, k);
      NextOf(k);
      WalkDropsAt(q, before, k, severity, priority);
      Drop(im, k);
      RestFrom(gone, k);
    }

    /** The inner loop: drop items until one is severe enough. */
    method SkipLow(start: Item, ghost k: nat, ghost q: seq<Message>, ghost was: seq<Item>, severity: int, priority: int)
      returns (im: Item?, next: Item?)
      requires Walking(start, k, q, was, severity, priority)
      modifies this`oldest, this`youngest, this`items, was
      ensures Walking(im, k, q, was, severity, priority)
      ensures im != null ==> im.message.severity >= severity && next == im.next
      ensures queueSeverity == old(queueSeverity) && refcount == old(refcount) && |items| <= old(|items|)
    {
      hide Walking;
      im, next := start, null;
      while im != null
        invariant Walking(im, k, q, was, severity, priority)
        invariant |items| <= old(|items|)
        decreases |items|
      {
        next := im.next;
        if im.message.severity >= severity {
          break;
        }
        DropOne(im, next, k, q, was, severity, priority);
        im := next;
      }
    }

    /** An item that is severe enough but not wanted stays. */
    lemma WalkOn(im: Item, k: nat, q: seq<Message>, was: seq<Item>, severity: int, priority: int)
      requires Walking(im, k, q, was, severity, priority) && im.message.severity >= severity
                 && im.message.priority < priority
      ensures k < |items| && Walking(im.next, k + 1, q, was, severity, priority)
    {
      hide SoFar; hide Texts; hide Linked;
      TextAt(items, k);
      NextOf(k);
      var c := Contents();
      WalkKeeps(q, c[..k], c[k..], severity, priority);
      assert c[..k] + [c[k..][0]] == c[..k + 1] && c[k..][1..] == c[k + 1..];
    }

    /** The end of the walk: hand out the item it stands at, if any. */
    method Take(im: Item?, ghost k: nat, ghost q: seq<Message>, ghost was: seq<Item>, severity: int, priority: int)
      requires Walking(im, k, q, was, severity, priority)
      requires im != null ==> Wanted(im.message, severity, priority)
      modifies this`oldest, this`youngest, this`items, was
      ensures Valid()
      ensures var r := Obtain(q, severity, priority);
              && Contents() == r.1
              && (im == null <==> r.0.None?)
              && (im != null ==>
                   im.message == r.0.value && im.live && im.prev == null && im.next == null && im !in items)
      ensures forall i | 0 <= i < |items| :: items[i] in was
      ensures forall o | o in was && o !in items && o != im :: !o.live
    {
      hide SoFar; hide Texts; hide Linked; hide Obtain; hide Oldest;
      ghost var c := Contents();
      WalkEnds(q, c[..k], c[k..], severity, priority);
      if im != null {
        TextAt(items, k);
        assert c[k..][1..] == c[k + 1..];
        ghost var before := items;
        Unlink(im, k);
        assert forall o | o in before && o != im :: o in items by { RestStays(before, k); }
      } else {
        assert c[..k] == c;
      }
    }

    /** libdax_msgs_obtain */
    method ObtainMessage(severity: int, priority: int) returns (item: Item?)
      requires Valid()
      modifies this`oldest, this`youngest, this`items, items
      ensures Valid()
      ensures var r := Obtain(old(Contents()), severity, priority);
              && Contents() == r.1
              && (item == null <==> r.0.None?)
              && (item != null ==>
                   item.message == r.0.value && item.live && item.prev == null && item.next == null && item !in items)
      ensures forall i | 0 <= i < |items| :: items[i] in old(items)
      ensures forall o | o in old(items) && o !in items && o != item :: !o.live
    {
      hide Obtain; hide Linked; hide SoFar; hide Texts; hide Walking;
      ghost var q, was := Contents(), items;
      ghost var k := 0;
      var im, next := oldest, null;
      WalkBegins(severity, priority);
      while im != null
        invariant Walking(im, k, q, was, severity, priority) && k <= |items|
        decreases |items| - k
      {
        im, next := SkipLow(im, k, q, was, severity, priority);
        if im == null {
          break;
        }
        if im.message.priority >= priority {
          break;
        }
        WalkOn(im, k, q, was, severity, priority);
        im := next;
        k := k + 1;
      }
      Take(im, k, q, was, severity, priority);
      item := im;
    }

    lemma WalkBegins(severity: int, priority: int)
      requires Valid()
      ensures Walking(oldest, 0, Contents(), items, severity, priority)
    {
      hide SoFar; hide Texts; hide Linked;
      var q := Contents();
      WalkStarts(q, severity, priority);
      assert q[..0] == [] && q[0..] == q;
    }

    /** libdax_msgs_refer */
    method Refer()
      requires Valid()
      modifies this`refcount
      ensures Valid() && refcount == old(refcount) + 1
    {
      refcount := refcount + 1;
    }

    /** libdax_msgs_destroy: one reference less; the last one takes all items with it */
    method Destroy() returns (gone: bool)
      requires Valid()
      modifies this, items
      ensures gone == (old(refcount) == 1)
      ensures !gone ==> Valid() && refcount == old(refcount) - 1 && items == old(items)
      ensures gone ==> forall o | o in old(items) :: !o.live
    {
      if refcount > 1 {
        refcount := refcount - 1;
        return false;
      }
      ghost var k := 0;
      forall i | 0 <= i < |items|
        ensures Remaining(items, i, 0)
      {
        assert Joined(items, i);
      }
      var item := oldest;
      while item != null
        invariant k <= |items| && item == At(items, k) && items == old(items) && Distinct(items)
        invariant forall i | 0 <= i < k :: !items[i].live
        invariant forall i | k <= i < |items| :: Remaining(items, i, k)
        decreases |items| - k
      {
        assert Remaining(items, k, k) && (k + 1 < |items| ==> Remaining(items, k + 1, k));
        var next := item.next;
        label before:
        DestroyItem(item);
        ghost var j := k + 1;
        forall i | j <= i < |items|
          ensures Remaining(items, i, j)
        {
          assert old@before(Remaining(items, i, k));
        }
        item := next;
        k := j;
      }
      gone := true;
    }

    /** libdax_msgs_item_destroy: the neighbours of the item are joined and it is freed. */
    static method DestroyItem(o: Item)
      requires o.live
      requires o.prev != null ==> o.prev.live && o.prev != o
      requires o.next != null ==> o.next.live && o.next != o
      modifies o, if o.prev == null then {} else {o.prev}, if o.next == null then {} else {o.next}
      ensures !o.live && o.prev == null && o.next == null
      ensures var p, n := old(o.prev), old(o.next);
              && (p != null ==> p.live && p.next == n && (p != n ==> p.prev == old(o.prev.prev)))
              && (n != null ==> n.live && n.prev == p && (n != p ==> n.next == old(o.next.next)))
    {
      if o.prev != null {
        o.prev.next := o.next;
      }
      if o.next != null {
        o.next.prev := o.prev;
      }
      o.next := null;
      o.prev := null;
      o.live := false;
    }

    lemma NextOf(k: nat)
      requires Valid() && k < |items|
      ensures items[k].next == At(items, k + 1)
    {
      assert Joined(items, k);
    }
  }

  lemma RestFrom(items: seq<Item>, k: nat)
    requires k < |items|
    ensures var rest := items[..k] + items[k + 1..];
            && At(rest, k) == At(items, k + 1)
            && (forall i | 0 <= i < |rest| :: rest[i] in items)
            && forall o | o in items && o != items[k] :: o in rest
  {
    RestStays(items, k);
  }

  lemma RestStays(items: seq<Item>, k: nat)
    requires k < |items|
    ensures forall o | o in items && o != items[k] :: o in items[..k] + items[k + 1..]
  {
    assert items == items[..k] + [items[k]] + items[k + 1..];
  }

  lemma TextAt(items: seq<Item>, k: nat)
    requires k < |items|
    ensures |Texts(items)| == |items| && Texts(items)[k] == items[k].message
  {
  }

  /** The list without its bypassed item is linked up again. */
  lemma Removed(items: seq<Item>, k: nat)
    requires k < |items| && Distinct(items)
    requires forall i | 0 <= i < |items| && i != k :: Rejoined(items, i, k)
    ensures var rest := items[..k] + items[k + 1..];
            && Distinct(rest) && (forall i | 0 <= i < |rest| :: Joined(rest, i)) && items[k] !in rest
            && At(rest, 0) == At(items, if k == 0 then 1 else 0)
            && At(rest, |rest| - 1) == At(items, if k == |items| - 1 then k - 1 else |items| - 1)
  {
    var rest := items[..k] + items[k + 1..];
    forall i | 0 <= i < |rest|
      ensures Joined(rest, i) && rest[i] != items[k]
    {
      var j := if i < k then i else i + 1;
      assert rest[i] == items[j] && Rejoined(items, j, k);
    }
  }
}
