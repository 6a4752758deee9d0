/** The reader of CD-TEXT packs in libburn/cdtext.c. */
module CdTextReader {
  import opened CdTextPackCrc
  import opened CdTextWriter
  import opened Options

  // ------------------------------------------------------------- search_pack

  function BlockOf(header: bv8): bv8 { (header >> 4) & 7 }
  predicate DoubleFlag(header: bv8) { header & 128 != 0 }

  /** A negative pack type or block stands for any. */
  predicate Matches(p: Pack, packType: int, block: int)
  {
    (packType >= 0 ==> p[0] as int == packType) && (block >= 0 ==> BlockOf(p[3]) as int == block)
  }

  method SearchPack(packs: array<bv8>, numPacks: nat, start: nat, packType: int, block: int)
      returns (found: bool, no: nat)
    requires 18 * numPacks <= packs.Length && start <= numPacks
    ensures start <= no <= numPacks && (found <==> no < numPacks)
    ensures found ==> Matches(PackAt(packs[..], no), packType, block)
    ensures forall i: nat | start <= i < no :: !Matches(PackAt(packs[..], i), packType, block)
  {
    ghost var a := packs[..];
    no := start;
    while no < numPacks
      invariant start <= no <= numPacks
      invariant forall i: nat | start <= i < no :: !Matches(PackAt(a, i), packType, block)
    {
      ghost var p := PackAt(a, no);
      assert p[0] == packs[18 * no] && p[3] == packs[18 * no + 3];
      if (packType < 0 || packs[18 * no] as int == packType)
          && (block < 0 || BlockOf(packs[18 * no + 3]) as int == block) {
        return true, no;
      }
      no := no + 1;
    }
    found := false;
  }

  // ----------------------------------------------------------- collect_payload

  /** Payload bytes of the matching packs among the first n. */
  function Payload(packs: seq<bv8>, n: nat, packType: int, block: int): (text: seq<bv8>)
    requires 18 * n <= |packs|
    ensures |text| % 2 == 0
  {
    if n == 0 then []
    else
      var p := PackAt(packs, n - 1);
      Payload(packs, n - 1, packType, block) + if Matches(p, packType, block) then p[4..16] else []
  }

  predicate AnyDouble(packs: seq<bv8>, n: nat, packType: int, block: int)
    requires 18 * n <= |packs|
  {
    n > 0 && (AnyDouble(packs, n - 1, packType, block)
              || (Matches(PackAt(packs, n - 1), packType, block) && DoubleFlag(PackAt(packs, n - 1)[3])))
  }

  lemma {:induction false} PayloadSkips(packs: seq<bv8>, lo: nat, hi: nat, packType: int, block: int)
    requires lo <= hi && 18 * hi <= |packs|
    requires forall i: nat | lo <= i < hi :: !Matches(PackAt(packs, i), packType, block)
    ensures Payload(packs, hi, packType, block) == Payload(packs, lo, packType, block)
    ensures AnyDouble(packs, hi, packType, block) == AnyDouble(packs, lo, packType, block)
    decreases hi
  {
    hide Matches;
    if lo < hi {
      PayloadSkips(packs, lo, hi - 1, packType, block);
      assert !Matches(PackAt(packs, hi - 1), packType, block);
    }
  }

  lemma PayloadTakes(packs: seq<bv8>, no: nat, packType: int, block: int)
    requires 18 * (no + 1) <= |packs| && Matches(PackAt(packs, no), packType, block)
    ensures Payload(packs, no + 1, packType, block) == Payload(packs, no, packType, block)
              + packs[18 * no + 4..18 * no + 16]
    ensures AnyDouble(packs, no + 1, packType, block) == (AnyDouble(packs, no, packType, block)
              || DoubleFlag(packs[18 * no + 3]))
  {
    hide Matches; hide DoubleFlag;
    var at := 18 * no;
    assert packs[at..at + 18][4..16] == packs[at + 4..at + 16];
  }

  method PayloadSize(packs: array<bv8>, numPacks: nat, packType: int, block: int) returns (count: nat)
    requires 18 * numPacks <= packs.Length
    ensures count == |Payload(packs[..], numPacks, packType, block)|
  {
    hide Matches;
    count := 0;
    var packNo := 0;
    while true
      invariant packNo <= numPacks && count == |Payload(packs[..], packNo, packType, block)|
      decreases numPacks - packNo
    {
      var found, no := SearchPack(packs, numPacks, packNo, packType, block);
      PayloadSkips(packs[..], packNo, no, packType, block);
      if !found {
        break;
      }
      PayloadTakes(packs[..], no, packType, block);
      count := count + 12;
      packNo := no + 1;
    }
  }

  /** memcpy of the 12 payload bytes of a pack */
  method CopyTwelve(payload: array<bv8>, at: nat, packs: array<bv8>, from: nat)
    requires at + 12 <= payload.Length && from + 12 <= packs.Length && payload != packs
    modifies payload
    ensures payload[..] == old(payload[..at]) + packs[from..from + 12] + old(payload[at + 12..])
  {
    for i := 0 to 12
      invariant payload[..at] == old(payload[..at]) && payload[at + 12..] == old(payload[at + 12..])
      invariant payload[at..at + i] == packs[from..from + i]
    {
      payload[at + i] := packs[from + i];
    }
  }

  lemma {:induction false} PayloadGrows(packs: seq<bv8>, n: nat, m: nat, packType: int, block: int)
    requires n <= m && 18 * m <= |packs|
    ensures |Payload(packs, n, packType, block)| <= |Payload(packs, m, packType, block)|
    decreases m
  {
    hide Matches;
    if n < m {
      PayloadGrows(packs, n, m - 1, packType, block);
    }
  }

  /** The second pass of collect_payload */
  method FillPayload(packs: array<bv8>, numPacks: nat, packType: int, block: int, payload: array<bv8>)
    returns (count: nat, double: bool)
    requires 18 * numPacks <= packs.Length && payload != packs
    requires payload.Length == |Payload(packs[..], numPacks, packType, block)| + 1
    modifies payload
    ensures count == payload.Length - 1
    ensures payload[..count] == Payload(packs[..], numPacks, packType, block)
    ensures double == AnyDouble(packs[..], numPacks, packType, block)
  {
    hide Matches; hide DoubleFlag; hide PackAt;
    count := 0;
    double := false;
    var packNo := 0;
    while true
      invariant packNo <= numPacks
      invariant count == |Payload(packs[..], packNo, packType, block)| < payload.Length
      invariant payload[..count] == Payload(packs[..], packNo, packType, block)
      invariant double == AnyDouble(packs[..], packNo, packType, block)
      decreases numPacks - packNo
    {
      hide Payload; hide AnyDouble;
      var found, no := SearchPack(packs, numPacks, packNo, packType, block);
      PayloadSkips(packs[..], packNo, no, packType, block);
      if !found {
        break;
      }
      PayloadTakes(packs[..], no, packType, block);
      PayloadGrows(packs[..], no + 1, numPacks, packType, block);
      ghost var before := payload[..count];
      CopyTwelve(payload, count, packs, 18 * no + 4);
      assert payload[..count + 12] == before + packs[18 * no + 4..18 * no + 16];
      count := count + 12;
      double := double || DoubleFlag(packs[18 * no + 3]);
      packNo := no + 1;
    }
  }

  /** 0 for no such pack, else the width of the text delimiter. */
  method CollectPayload(packs: array<bv8>, numPacks: nat, packType: int, block: int)
    returns (ret: nat, payload: array<bv8>, count: nat)
    requires 18 * numPacks <= packs.Length
    ensures fresh(payload) && count == |Payload(packs[..], numPacks, packType, block)|
    ensures payload.Length == count + 1 && payload[..count] == Payload(packs[..], numPacks, packType, block)
    ensures ret == 0 <==> count == 0
    ensures ret > 0 ==> payload[count] == 0 && ret == if AnyDouble(packs[..], numPacks, packType, block) then 2 else 1
  {
    hide Payload; hide AnyDouble;
    count := PayloadSize(packs, numPacks, packType, block);
    payload := new bv8[count + 1];
    if count == 0 {
      return 0, payload, 0;
    }
    var double;
    count, double := FillPayload(packs, numPacks, packType, block, payload);
    ghost var text := payload[..count];
    payload[count] := 0;
    assert payload[..count] == text;
    ret := if double then 2 else 1;
  }

  // -------------------------------------------------------- pick_payload_text

  function Width(double: bool): nat { if double then 2 else 1 }

  /** A whole number of characters. */
  predicate Whole(n: int, double: bool) { double ==> n % 2 == 0 }

  /** is_payload_text_end */
  predicate IsTextEnd(payload: seq<bv8>, i: nat, double: bool)
  {
    i >= |payload| || (payload[i] == 0 && (!double || i + 1 >= |payload| || payload[i + 1] == 0))
  }

  /** The next text end at or after i; the end of the payload if there is none. */
  function NextEnd(payload: seq<bv8>, i: nat, double: bool): (e: nat)
    ensures e >= i
    ensures Whole(|payload|, double) && Whole(i, double) ==> Whole(e, double) && (i <= |payload| ==> e <= |payload|)
    decreases |payload| - i
  {
    if i >= |payload| || IsTextEnd(payload, i, double) then i else NextEnd(payload, i + Width(double), double)
  }

  /** Where text k begins, if at least k text ends precede it. */
  function StartOf(payload: seq<bv8>, k: nat, double: bool): (start: Option<nat>)
    requires Whole(|payload|, double)
    ensures start.Some? ==> start.value <= |payload| && Whole(start.value, double)
  {
    if k == 0 then Some(0)
    else
      var s :- StartOf(payload, k - 1, double);
      var e := NextEnd(payload, s, double);
      if e < |payload| then Some(e + Width(double)) else None
  }

  predicate IsTab(text: seq<bv8>, double: bool) { text == if double then [TAB, TAB] else [TAB] }

  /** Text k, with a TAB replaced by the text before it if wanted. Without any text end the
      very first text counts as empty. */
  function Pick(payload: seq<bv8>, k: nat, double: bool, lookBack: bool): Option<seq<bv8>>
    requires Whole(|payload|, double)
  {
    var start :- StartOf(payload, k, double);
    var end := NextEnd(payload, start, double);
    if k == 0 then Some(if end < |payload| then payload[..end] else [])
    else
      var text := payload[start..end];
      if lookBack && IsTab(text, double) then Pick(payload, k - 1, double, lookBack) else Some(text)
  }

  lemma NextStart(p: seq<bv8>, k: nat, double: bool)
    requires Whole(|p|, double) && StartOf(p, k, double).Some?
    ensures var e := NextEnd(p, StartOf(p, k, double).value, double);
            StartOf(p, k + 1, double) == if e < |p| then Some(e + Width(double)) else None
  {
    hide NextEnd;
  }

  lemma {:induction false} NoStart(p: seq<bv8>, k: nat, m: nat, double: bool)
    requires Whole(|p|, double) && k <= m && StartOf(p, k, double).None?
    ensures StartOf(p, m, double).None?
  {
    hide NextEnd;
    if m > k {
      NoStart(p, k, m - 1, double);
    }
  }

  lemma EndStep(p: seq<bv8>, i: nat, double: bool)
    requires i < |p|
    ensures NextEnd(p, i, double) == if IsTextEnd(p, i, double) then i else NextEnd(p, i + Width(double), double)
  {
  }

  lemma EndAtCount(p: seq<bv8>, double: bool)
    ensures NextEnd(p, |p|, double) == |p|
  {
  }

  function IsPayloadTextEnd(payload: array<bv8>, count: nat, i: nat, double: bool): (end: bool)
    requires i < count <= payload.Length
    reads payload
    ensures end == IsTextEnd(payload[..count], i, double)
  {
    if payload[i] != 0 then false
    else if !double then true
    else if i + 1 >= count then true
    else payload[i + 1] == 0
  }

  function IsTabText(payload: array<bv8>, start: nat, len: nat, double: bool): (tab: bool)
    requires start + len <= payload.Length
    reads payload
    ensures tab == IsTab(payload[start..start + len], double)
  {
    if double then len == 2 && payload[start] == TAB && payload[start + 1] == TAB
    else len == 1 && payload[start] == TAB
  }

  /** The search for text tno > 0 in pick_payload_text. */
  method FindText(payload: array<bv8>, count: nat, tno: nat, double: bool) returns (found: bool, start: nat, len: nat)
    requires count <= payload.Length && Whole(count, double) && tno > 0
    ensures found <==> StartOf(payload[..count], tno, double).Some?
    ensures found ==>
              && start == StartOf(payload[..count], tno, double).value
              && start + len == NextEnd(payload[..count], start, double)
  {
    hide StartOf; hide NextEnd; hide IsPayloadTextEnd; hide IsTextEnd;
    ghost var p := payload[..count];
    EndAtCount(p, double);
    assert StartOf(p, 0, double) == Some(0) by { StartAtZero(p, double); }
    var skipped := 0;
    found, start, len := false, 0, 0;
    var i := 0;
    ghost var from := 0;
    while i < count
      invariant from <= i <= count && Whole(i, double)
      invariant skipped <= tno && (found <==> skipped == tno)
      invariant StartOf(p, skipped, double) == Some(from) && NextEnd(p, from, double) == NextEnd(p, i, double)
      invariant found ==> start == from
      decreases count - i
    {
      EndStep(p, i, double);
      if IsPayloadTextEnd(payload, count, i, double) {
        if skipped == tno {
          return found, start, i - start;
        }
        NextStart(p, skipped, double);
        skipped := skipped + 1;
        from := i + Width(double);
        if skipped == tno {
          found, start := true, i + Width(double);
        }
      }
      i := i + Width(double);
    }
    if found {
      len := count - start;
    } else {
      NextStart(p, skipped, double);
      NoStart(p, skipped + 1, tno, double);
    }
  }

  lemma StartAtZero(p: seq<bv8>, double: bool)
    requires Whole(|p|, double)
    ensures StartOf(p, 0, double) == Some(0)
  {
  }

  /** The search for the text of the session. */
  method FindFirst(payload: array<bv8>, count: nat, double: bool) returns (len: nat)
    requires count <= payload.Length && Whole(count, double)
    ensures var end := NextEnd(payload[..count], 0, double);
            len == if end < count then end else 0
  {
    ghost var p := payload[..count];
    var i := 0;
    while i < count
      invariant i <= count && Whole(i, double) && NextEnd(p, 0, double) == NextEnd(p, i, double)
      decreases count - i
    {
      EndStep(p, i, double);
      if IsPayloadTextEnd(payload, count, i, double) {
        return i;
      }
      i := i + Width(double);
    }
    len := 0;
  }

  lemma PickStep(p: seq<bv8>, k: nat, double: bool, lookBack: bool)
    requires Whole(|p|, double) && k > 0
    ensures var start := StartOf(p, k, double);
            if start.None? then Pick(p, k, double, lookBack).None?
            else
              var text := p[start.value..NextEnd(p, start.value, double)];
              Pick(p, k, double, lookBack) == if lookBack
                  && IsTab(text, double) then Pick(p, k - 1, double, lookBack) else Some(text)
  {
    hide StartOf; hide NextEnd; hide IsTab;
  }

  lemma PickFirst(p: seq<bv8>, double: bool, lookBack: bool)
    requires Whole(|p|, double)
    ensures var end := NextEnd(p, 0, double);
            Pick(p, 0, double, lookBack) == Some(if end < |p| then p[..end] else [])
  {
    hide NextEnd;
  }

  method PickPayloadText(payload: array<bv8>, count: nat, tno: nat, double: bool, lookBack: bool)
    returns (found: bool, start: nat, len: nat)
    requires count <= payload.Length && Whole(count, double)
    ensures found <==> Pick(payload[..count], tno, double, lookBack).Some?
    ensures found ==>
              start + len <= count && payload[start..start + len] == Pick(payload[..count], tno, double, lookBack).value
  {
    hide NextEnd; hide StartOf; hide IsTab; hide Pick; hide Picked;
    ghost var p := payload[..count];
    var k, again := tno, true;
    found, start, len := false, 0, 0;
    while again
      invariant 0 <= k <= tno && Pick(p, k, double, lookBack) == Pick(p, tno, double, lookBack)
      invariant !again ==> Picked(p, found, start, len, k, double, lookBack)
      decreases k, again
    {
      found, start, len, again := PickOnce(payload, count, k, double, lookBack);
      if again {
        k := k - 1;
      }
    }
    assert payload[..][..count] == p;
    PickedMeans(payload[..], count, found, start, len, k, double, lookBack);
    assert found ==> payload[start..start + len] == payload[..][start..start + len];
  }

  lemma PickedMeans(a: seq<bv8>, count: nat, found: bool, start: nat, len: nat, k: nat, double: bool, lookBack: bool)
    requires count <= |a| && Whole(count, double) && Picked(a[..count], found, start, len, k, double, lookBack)
    ensures found <==> Pick(a[..count], k, double, lookBack).Some?
    ensures found ==> start + len <= count && a[start..start + len] == Pick(a[..count], k, double, lookBack).value
  {
    hide Pick;
    if found {
      assert a[..count][start..start + len] == a[start..start + len];
    }
  }

  ghost predicate Picked(p: seq<bv8>, found: bool, start: nat, len: nat, k: nat, double: bool, lookBack: bool)
    requires Whole(|p|, double)
  {
    && (found <==> Pick(p, k, double, lookBack).Some?)
    && (found ==> start + len <= |p| && p[start..start + len] == Pick(p, k, double, lookBack).value)
  }

  /** From the label "again" of pick_payload_text to the next jump there, or to the result. */
  method PickOnce(payload: array<bv8>, count: nat, k: nat, double: bool, lookBack: bool)
    returns (found: bool, start: nat, len: nat, again: bool)
    requires count <= payload.Length && Whole(count, double)
    ensures again ==>
              k > 0 && Pick(payload[..count], k, double, lookBack) == Pick(payload[..count], k - 1, double, lookBack)
    ensures !again ==> Picked(payload[..count], found, start, len, k, double, lookBack)
  {
    hide NextEnd; hide StartOf; hide IsTab; hide IsTabText; hide Pick;
    ghost var p := payload[..count];
    if k == 0 {
      PickFirst(p, double, lookBack);
      found, start, again := true, 0, false;
      len := FindFirst(payload, count, double);
      assert p[0..len] == p[..len];
    } else {
      PickStep(p, k, double, lookBack);
      found, start, len := FindText(payload, count, k, double);
      assert found ==> payload[start..start + len] == p[start..start + len];
      again := found && lookBack && IsTabText(payload, start, len, double);
    }
  }
}
