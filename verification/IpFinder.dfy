/** IPFinder.cpp: looking an address up in the index of the database file, and addresses as text. */
module IpFinder {
  import opened Bytes

  /** Four bytes of address and three of offset. */
  const INDEX_LENGTH := 7

  // ---- The file ----

  /** fgetc past the end gives EOF, whose low byte is 255. */
  function ByteAt(file: seq<byte>, i: nat): byte {
    if i < |file| then file[i] else 255
  }

  /** The little-endian number in the n bytes from i on. */
  ghost function Value(file: seq<byte>, i: nat, n: nat): nat
    decreases n
  {
    if n == 0 then 0 else ByteAt(file, i) + 256 * Value(file, i + 1, n - 1)
  }

  /** The first address of the index record at i. */
  ghost function Header(file: seq<byte>, i: nat): nat {
    Value(file, i, 4)
  }

  // ---- The index ----

  ghost predicate Aligned(start: nat, i: nat) {
    i >= start && (i - start) % INDEX_LENGTH == 0
  }

  ghost predicate Sorted(file: seq<byte>, start: nat, end: nat) {
    forall i: nat, k: nat | Aligned(start, i) && Aligned(start, k) && i <= k <= end :: Header(file, i) <= Header(file, k)
  }

  /** The record at i is the one for the address. */
  ghost predicate Covers(file: seq<byte>, i: nat, ip: nat) {
    Header(file, i) <= ip < Header(file, i + INDEX_LENGTH)
  }

  lemma AlignedAbove()
    ensures forall start: nat, i: nat | Aligned(start, i) :: start <= i
  {
  }

  lemma AlignedStep(start: nat, i: nat, k: nat)
    requires Aligned(start, i) && Aligned(start, k) && i < k
    ensures i + INDEX_LENGTH <= k && Aligned(start, i + INDEX_LENGTH)
  {
    var a, b := (i - start) / INDEX_LENGTH, (k - start) / INDEX_LENGTH;
    assert i - start == INDEX_LENGTH * a && k - start == INDEX_LENGTH * b;
    assert i + INDEX_LENGTH - start == INDEX_LENGTH * (a + 1);
  }

  /** Divided before multiplied, so that the middle is a whole number of records away. */
  function Middle(left: nat, right: nat): nat
    requires left <= right
  {
    (right - left) / INDEX_LENGTH / 2 * INDEX_LENGTH + left
  }

  /** In a sorted index no two records are for the same address. */
  lemma OneRecord(file: seq<byte>, start: nat, end: nat, i: nat, k: nat, ip: nat)
    requires Sorted(file, start, end) && Aligned(start, i) && Aligned(start, k) && i < end && k < end
    requires Covers(file, i, ip) && Covers(file, k, ip) && Aligned(start, end)
    ensures i == k
  {
    if i < k {
      AlignedStep(start, i, k);
    } else if k < i {
      AlignedStep(start, k, i);
    }
  }

  class CIpFinder {
    const file: seq<byte>
    const m_indexStart: nat
    const m_indexEnd: nat

    /** The file begins with where its index starts and ends. */
    constructor (file: seq<byte>)
      ensures this.file == file && m_indexStart == Value(file, 0, 4) && m_indexEnd == Value(file, 4, 4)
    {
      this.file := file;
      var start := ReadValue(file, 0, 4);
      var end := ReadValue(file, 4, 4);
      m_indexStart := start;
      m_indexEnd := end;
    }

    method GetValue3(indexStart: nat) returns (value: nat)
      ensures value == Value(file, indexStart, 3)
    {
      value := ReadValue(file, indexStart, 3);
    }

    method GetValue4(indexStart: nat) returns (value: nat)
      ensures value == Value(file, indexStart, 4)
    {
      value := ReadValue(file, indexStart, 4);
    }

    /** The state of the search: `bound` is where the last whole record before `right` ends. */
    ghost predicate Searching(ip: nat, start: nat, last: nat, left: nat, right: nat, mid: nat, bound: nat) {
      && start <= last
      && var end := WholeRecords(start, last);
      && start <= left <= mid <= bound <= end && bound <= right
      && Aligned(start, left) && Aligned(start, mid) && Aligned(start, bound)
      && (right == bound || (right == last && bound == end))
      && mid == Middle(left, right) == Middle(left, bound)
      && (start < end ==> left < end && mid < end && (ip >= Header(file, start) ==> left < bound))
      && (left == start || ip >= Header(file, left))
      && (bound == end || ip < Header(file, bound))
    }

    lemma SearchStarts(ip: nat, start: nat, last: nat)
      requires start <= last
      ensures Searching(ip, start, last, start, last, Middle(start, last), WholeRecords(start, last))
    {
      WholeAligned(start, last);
      SameMiddle(start, last, start);
      Halfway(start, start, WholeRecords(start, last));
      hide Header, Aligned, Middle, WholeRecords;
    }

    /** The loop's body: halve the range, and put the middle on a record. */
    method Narrow(ip: nat, left: nat, right: nat, mid: nat, ghost start: nat, ghost last: nat, ghost bound: nat)
      returns (left': nat, right': nat, mid': nat, ghost bound': nat)
      requires Searching(ip, start, last, left, right, mid, bound)
      ensures Searching(ip, start, last, left', right', mid', bound')
      ensures left < mid ==> bound' - left' < bound - left
    {
      hide Value, Aligned, Middle, WholeRecords;
      AlignedAbove();
      Halfway(start, left, bound);
      var header := GetValue4(mid);
      left', right', bound' := left, right, bound;
      if ip < header {
        right', bound' := mid, mid;
      } else {
        left' := mid;
      }
      MiddleIs(left', right');
      mid' := (right' - left') / INDEX_LENGTH / 2 * INDEX_LENGTH + left';
      SameMiddle(start, last, left');
      Halfway(start, left', bound');
    }

    /** The record for an address; a zero bound stands for the whole index's. Bytes after the last
        whole record of the range count for nothing. The record covers the address exactly when the
        range does: below the range the first record is the answer, above it the last before the
        end. The index need only be sorted for the answer to be unique. */
    method SearchIp(ip: nat, indexStart: nat, indexEnd: nat) returns (index: nat)
      requires var start, end := if indexStart == 0 then m_indexStart else indexStart,
                                 if indexEnd == 0 then m_indexEnd else indexEnd;
               start <= end
      ensures var start := if indexStart == 0 then m_indexStart else indexStart;
              var end := WholeRecords(start, if indexEnd == 0 then m_indexEnd else indexEnd);
              && Aligned(start, index)
              && (start == end ==> index == start)
              && (start < end ==> index < end)
              && (start < end && Header(file, start) <= ip < Header(file, end) ==> Covers(file, index, ip))
              && (start < end && Sorted(file, start, end) ==>
                    && (ip < Header(file, start) ==> index == start && !Covers(file, index, ip))
                    && (ip >= Header(file, end) ==> index == end - INDEX_LENGTH && !Covers(file, index, ip)))
    {
      var start: nat := if indexStart == 0 then m_indexStart else indexStart;
      var last: nat := if indexEnd == 0 then m_indexEnd else indexEnd;
      SearchStarts(ip, start, last);
      hide *;
      var left: nat, right: nat, mid: nat := start, last, Middle(start, last);
      ghost var bound: nat := WholeRecords(start, last);
      left, right, mid, bound := Narrow(ip, left, right, mid, start, last, bound);
      while left < mid
        invariant Searching(ip, start, last, left, right, mid, bound)
        decreases bound - left
      {
        left, right, mid, bound := Narrow(ip, left, right, mid, start, last, bound);
      }
      index := mid;
      SearchEnds(ip, start, last, left, right, mid, bound);
    }

    lemma SearchEnds(ip: nat, start: nat, last: nat, left: nat, right: nat, mid: nat, bound: nat)
      requires Searching(ip, start, last, left, right, mid, bound) && left >= mid
      ensures start <= last
      ensures var end := WholeRecords(start, last);
              && mid == left && Aligned(start, mid)
              && (start == end ==> mid == start)
              && (start < end ==> mid < end)
              && (start < end && Header(file, start) <= ip < Header(file, end) ==> Covers(file, mid, ip))
              && (start < end && Sorted(file, start, end) ==>
                    && (ip < Header(file, start) ==> mid == start && !Covers(file, mid, ip))
                    && (ip >= Header(file, end) ==> mid == end - INDEX_LENGTH && !Covers(file, mid, ip)))
    {
      WholeAligned(start, last);
      hide Header, Sorted, Covers, Aligned, Middle, WholeRecords;
      Halfway(start, left, bound);
      FoundRecord(file, start, WholeRecords(start, last), left, bound, ip);
    }
  }

  /** The end of the last whole record before the end. */
  function WholeRecords(start: nat, end: nat): (e: nat)
    requires start <= end
    ensures start <= e <= end
  {
    start + (end - start) / INDEX_LENGTH * INDEX_LENGTH
  }

  lemma MiddleIs(left: nat, right: nat)
    requires left <= right
    ensures Middle(left, right) == (right - left) / INDEX_LENGTH / 2 * INDEX_LENGTH + left
  {
  }

  lemma WholeAligned(start: nat, end: nat)
    requires start <= end
    ensures Aligned(start, WholeRecords(start, end)) && Aligned(start, start)
  {
  }

  lemma SameMiddle(start: nat, end: nat, left: nat)
    requires start <= end && Aligned(start, left)
    ensures left <= WholeRecords(start, end) ==> Middle(left, end) == Middle(left, WholeRecords(start, end))
  {
    if left <= WholeRecords(start, end) {
      var a, b := (left - start) / INDEX_LENGTH, (end - start) / INDEX_LENGTH;
      assert left == start + INDEX_LENGTH * a && WholeRecords(start, end) == start + INDEX_LENGTH * b;
      assert (end - left) / INDEX_LENGTH == b - a == (WholeRecords(start, end) - left) / INDEX_LENGTH;
    }
  }

  /** What a range of at most one record means for the answer. */
  lemma FoundRecord(file: seq<byte>, start: nat, end: nat, left: nat, right: nat, ip: nat)
    requires start <= left <= right <= end && Aligned(start, left) && Aligned(start, right) && Aligned(start, end)
    requires right - left < 2 * INDEX_LENGTH && (left < right ==> right == left + INDEX_LENGTH)
    requires start < end ==> left < end && (ip >= Header(file, start) ==> left < right)
    requires left == start || ip >= Header(file, left)
    requires right == end || ip < Header(file, right)
    ensures start < end && Header(file, start) <= ip < Header(file, end) ==> Covers(file, left, ip)
    ensures start < end && Sorted(file, start, end) ==>
              && (ip < Header(file, start) ==> left == start && !Covers(file, left, ip))
              && (ip >= Header(file, end) ==> left == end - INDEX_LENGTH && !Covers(file, left, ip))
  {
    hide Header;
    assert Sorted(file, start, end) ==> Header(file, start) <= Header(file, left) by {
      assert Aligned(start, start);
    }
    assert Sorted(file, start, end) ==> Header(file, right) <= Header(file, end);
    assert Sorted(file, start, end) ==> Header(file, start) <= Header(file, end);
  }

  /** The middle lies on a record, strictly inside unless the range has fewer than two. */
  lemma Halfway(start: nat, left: nat, right: nat)
    requires start <= left <= right && Aligned(start, left) && Aligned(start, right)
    ensures var mid := Middle(left, right);
            && left <= mid <= right && Aligned(start, mid)
            && (mid == left <==> right - left < 2 * INDEX_LENGTH)
            && (left < right ==> mid < right)
            && (right - left < 2 * INDEX_LENGTH && left < right ==> right == left + INDEX_LENGTH)
    ensures Aligned(start, start)
  {
    var a, b := (left - start) / INDEX_LENGTH, (right - start) / INDEX_LENGTH;
    assert left - start == INDEX_LENGTH * a && right - start == INDEX_LENGTH * b;
    assert right - left == INDEX_LENGTH * (b - a);
    assert (right - left) / INDEX_LENGTH == b - a;
    assert (b - a) / 2 * INDEX_LENGTH + left - start == INDEX_LENGTH * ((b - a) / 2 + a);
  }

  /** Reads n bytes and adds them up from the last to the first. */
  method ReadValue(file: seq<byte>, start: nat, n: nat) returns (value: nat)
    ensures value == Value(file, start, n)
  {
    value := 0;
    var j := n;
    while j > 0
      invariant 0 <= j <= n && value == Value(file, start + j, n - j)
    {
      j := j - 1;
      value := value * 256 + ByteAt(file, start + j);
    }
  }
}
