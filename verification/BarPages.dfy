// Which pages of a BAR the enable and disable loops visit (DevMon.cpp).
module BarPages {
  import opened EptTree
  import opened MonitorProtocol

  // ADDRESS_AND_SIZE_TO_SPAN_PAGES(0, size).
  function SpanPages(size: nat): nat {
    (size + PAGE_SIZE - 1) / PAGE_SIZE
  }

  // The fewest pages that hold so many bytes.
  lemma SpanExact(size: nat)
    ensures size <= PAGE_SIZE * SpanPages(size) < size + PAGE_SIZE
  {
  }

  // The address that round k of either loop looks up.  The address is advanced
  // after its use, by the count of the round just done.
  function VisitAddress(base: nat, k: nat): (a: nat)
    ensures a < 0x1_0000_0000
  {
    if k == 0 then Low32(base) else Low32(Low32(base) + PAGE_SIZE * (k - 1))
  }

  // The frames of the first n rounds.
  function VisitFrames(base: nat, n: nat): (s: seq<nat>)
    ensures |s| == n
  {
    seq(n, k requires 0 <= k < n => Frame(VisitAddress(base, k)))
  }

  // A BAR as firmware places it: page aligned and not empty, with a 32-bit size.
  ghost predicate PlacedBar(base: nat, size: nat) {
    base % PAGE_SIZE == 0 && 0 < size < 0x1_0000_0000
  }

  // The loops visit page indices 0, 0, 1, ..., n - 2 of an n-page BAR, of
  // whose frame numbers only the low 20 bits are kept.
  lemma {:induction false} VisitedFrame(base: nat, size: nat, k: nat)
    requires PlacedBar(base, size) && k < SpanPages(size)
    ensures VisitFrames(base, SpanPages(size))[k] == (base / PAGE_SIZE + (if k == 0 then 0 else k - 1)) % 0x10_0000
  {
    var i := if k == 0 then 0 else k - 1;
    var q := base / PAGE_SIZE;
    assert base == q * PAGE_SIZE;
    LowHalf(q);
    LowHalf(q % 0x10_0000 + i);
    assert VisitAddress(base, k) == ((q % 0x10_0000 + i) % 0x10_0000) * PAGE_SIZE;
    SumOfLow(q, i);
  }

  lemma LowHalf(q: nat)
    ensures Low32(q * PAGE_SIZE) == (q % 0x10_0000) * PAGE_SIZE
  {
  }

  lemma SumOfLow(q: nat, i: nat)
    ensures (q % 0x10_0000 + i) % 0x10_0000 == (q + i) % 0x10_0000
  {
  }

  // Page i of the BAR is among the visited ones.
  ghost predicate PageVisited(base: nat, size: nat, i: nat) {
    base / PAGE_SIZE + i in VisitFrames(base, SpanPages(size))
  }

  // Monitoring covers the whole BAR if and only if it has a single page below
  // 4 GiB: the last page of a longer one is never visited, nor is any page at
  // or above 4 GiB.
  lemma {:induction false} CoverageExact(base: nat, size: nat)
    requires PlacedBar(base, size)
    ensures (forall i: nat :: i < SpanPages(size) ==> PageVisited(base, size, i))
      <==> SpanPages(size) == 1 && base < 0x1_0000_0000
  {
    var n := SpanPages(size);
    var frames := VisitFrames(base, n);
    assert 1 <= n <= 0x10_0000;
    if n == 1 && base < 0x1_0000_0000 {
      VisitedFrame(base, size, 0);
      assert frames[0] == base / PAGE_SIZE;
    } else {
      forall k | 0 <= k < n
        ensures frames[k] != base / PAGE_SIZE + (n - 1)
      {
        VisitedFrame(base, size, k);
        NotLastPage(base / PAGE_SIZE, n, if k == 0 then 0 else k - 1);
      }
      assert !PageVisited(base, size, n - 1);
    }
  }

  lemma NotLastPage(q: nat, n: nat, i: nat)
    requires 1 <= n <= 0x10_0000 && i < n && (i < n - 1 || q >= 0x10_0000)
    ensures (q + i) % 0x10_0000 != q + (n - 1)
  {
  }

  // The address is cut to 32 bits, so the first visited page is the BAR's own
  // if and only if the BAR starts below 4 GiB; otherwise it is another page.
  lemma OwnPagesExact(base: nat, size: nat)
    requires base % PAGE_SIZE == 0 && base < ADDRESS_LIMIT && size > 0
    ensures SpanPages(size) > 0
    ensures VisitFrames(base, SpanPages(size))[0] == Frame(base) <==> base < 0x1_0000_0000
  {
  }

  // Byte `offset` of the page that round k visits is recognized as the BAR's.
  ghost predicate ByteRecognized(base: nat, size: nat, k: nat, offset: nat) {
    InBar(Bar(base, base + size), VisitAddress(base, k) + offset)
  }

  // The BAR stays below 4 GiB when its base is cut to 32 bits, and fills its
  // first page.
  predicate Fits32(base: nat, size: nat) {
    Low32(base) + size < 0x1_0000_0000 && size >= PAGE_SIZE - 1
  }

  // Every byte of every visited page is recognized as belonging to the BAR if
  // and only if it fits in this sense.  Otherwise some access to a closed page
  // is not recognized.
  lemma {:induction false} RecognizedExact(base: nat, size: nat)
    requires PlacedBar(base, size)
    ensures (forall k: nat, offset: nat :: k < SpanPages(size) && offset < PAGE_SIZE ==>
               ByteRecognized(base, size, k, offset))
      <==> Fits32(base, size)
  {
    var n := SpanPages(size);
    var low := Low32(base);
    assert n >= 1;
    if low + size >= 0x1_0000_0000 {
      assert Low32(base + size) < low;
      assert !ByteRecognized(base, size, 0, 0);
    } else if size < PAGE_SIZE - 1 {
      assert Low32(base + size) == low + size;
      assert !ByteRecognized(base, size, 0, PAGE_SIZE - 1);
    } else {
      assert Low32(base + size) == low + size;
      forall k: nat, offset: nat | k < n && offset < PAGE_SIZE
        ensures ByteRecognized(base, size, k, offset)
      {
        var i := if k == 0 then 0 else k - 1;
        assert PAGE_SIZE * i + PAGE_SIZE - 1 <= size;
        assert VisitAddress(base, k) == low + PAGE_SIZE * i;
      }
    }
  }
}
