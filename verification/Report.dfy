/**
 * Report: format into a buffer that is doubled until the text fits, then send it.  What malloc,
 * realloc and vsnprintf do on each call is a parameter of the run.
 */
module Report {
  import opened LineEditor

  /** HEAPSIZE of the linker command file. */
  const HEAP_SIZE: nat := 0xA000

  /**
   * The heap: live blocks with their sizes.  All that is known of its size is that no block can be
   * larger; whether a smaller request finds room is decided by the caller's `granted`, so every
   * allocator is covered, whatever else is live and however it moves a block.
   */
  class Heap {
    var live: map<nat, nat>
    var next: nat

    ghost predicate Valid()
      reads this
    {
      next >= 1 && forall p :: p in live ==> 1 <= p < next
    }

    constructor ()
      ensures Valid() && live == map[]
    {
      live, next := map[], 1;
    }

    /** A fresh block, or 0 for NULL when the request is too large or not granted. */
    method Malloc(size: nat, granted: bool) returns (p: nat)
      requires Valid()
      modifies this
      ensures Valid()
      ensures if granted && size <= HEAP_SIZE then p != 0 && p !in old(live) && live == old(live)[p := size]
              else p == 0 && live == old(live)
    {
      if !granted || size > HEAP_SIZE {
        return 0;
      }
      p := next;
      live, next := live[p := size], next + 1;
    }

    /** The block is moved to a fresh one, or stays where it is when NULL is returned. */
    method Realloc(p: nat, size: nat, granted: bool) returns (q: nat)
      requires Valid() && p in live
      modifies this
      ensures Valid()
      ensures if granted && size <= HEAP_SIZE then q != 0 && q !in old(live) && live == (old(live) - {p})[q := size]
              else q == 0 && live == old(live)
    {
      if !granted || size > HEAP_SIZE {
        return 0;
      }
      q := next;
      live, next := (live - {p})[q := size], next + 1;
    }

    /** Freeing needs a live block, so nothing is freed twice. */
    method Free(p: nat)
      requires Valid() && p in live
      modifies this
      ensures Valid() && live == old(live) - {p}
    {
      live := live - {p};
    }
  }

  /** What vsnprintf returns, and the string it leaves in the buffer. */
  datatype Formatted = Formatted(ret: int, text: seq<char>)

  /** The n-th call of vsnprintf, with this buffer size. */
  type Formatter = (nat, nat) -> Formatted

  function Size(k: nat): nat {
    if k == 0 then 256 else 2 * Size(k - 1)
  }

  lemma Sizes()
    ensures Size(7) == 32768 <= HEAP_SIZE < Size(8) == 65536
  {
  }

  predicate Fits(f: Formatted, size: nat) {
    -1 < f.ret < size
  }

  const MESSAGE: seq<char> := "Could not reallocate memory\n\r"

  /** Doubling stays inside the heap at most seven times. */
  lemma SizeBound(k: nat)
    requires Size(k) <= HEAP_SIZE
    ensures k <= 7
  {
  }

  lemma {:induction false} SizeMono(j: nat, k: nat)
    requires j <= k
    ensures Size(j) <= Size(k)
  {
    if j < k {
      SizeMono(j, k - 1);
    }
  }

  /** Result, what is sent, and the number of doublings. */
  datatype Run = Run(ret: int, sent: seq<char>, doublings: nat)

  /** The loop from its k-th call of vsnprintf on; granted(k) is the answer to the k-th realloc. */
  function RunFrom(fmt: Formatter, granted: nat -> bool, k: nat): Run
    requires Size(k) <= HEAP_SIZE
    decreases 8 - k
  {
    var f := fmt(k, Size(k));
    SizeBound(k);
    if Fits(f, Size(k)) then Run(f.ret, f.text, k)
    else if !granted(k + 1) || Size(k + 1) > HEAP_SIZE then Run(-1, MESSAGE + f.text, k + 1)
    else RunFrom(fmt, granted, k + 1)
  }

  lemma RunStep(fmt: Formatter, granted: nat -> bool, k: nat)
    requires Size(k) <= HEAP_SIZE
    ensures k <= 7 && Size(k + 1) == 2 * Size(k)
    ensures var f := fmt(k, Size(k));
            RunFrom(fmt, granted, k) ==
            if Fits(f, Size(k)) then Run(f.ret, f.text, k)
            else if !granted(k + 1) || Size(k + 1) > HEAP_SIZE then Run(-1, MESSAGE + f.text, k + 1)
            else RunFrom(fmt, granted, k + 1)
  {
    SizeBound(k);
  }

  lemma FirstSize()
    ensures Size(0) == 256 <= HEAP_SIZE
  {
  }

  /** The heap is left as it was found: what was allocated is freed, and only once. */
  method Report(heap: Heap, uart: Uart, fmt: Formatter, granted: nat -> bool) returns (iRet: int)
    requires heap.Valid()
    modifies heap, uart
    ensures heap.Valid() && heap.live == old(heap.live)
    ensures Size(0) <= HEAP_SIZE
    ensures if granted(0) then
              var run := RunFrom(fmt, granted, 0); iRet == run.ret && uart.sent == old(uart.sent) + run.sent
            else iRet == -1 && uart.sent == old(uart.sent)
  {
    hide Size, RunFrom;
    FirstSize();
    var iSize := 256;
    var pcBuff := heap.Malloc(iSize, granted(0));
    if pcBuff == 0 {
      return -1;
    }
    ghost var live0 := old(heap.live);
    var n := 0;
    var text: seq<char>;
    while true
      invariant heap.Valid() && pcBuff !in live0 && heap.live == live0[pcBuff := iSize]
      invariant iSize == Size(n) <= HEAP_SIZE
      invariant RunFrom(fmt, granted, n) == RunFrom(fmt, granted, 0)
      invariant uart.sent == old(uart.sent)
      decreases 8 - n
    {
      RunStep(fmt, granted, n);
      var f := fmt(n, iSize);
      iRet, text := f.ret, f.text;
      if iRet > -1 && iRet < iSize {
        break;
      }
      iSize := iSize * 2;
      n := n + 1;
      var pcTemp := heap.Realloc(pcBuff, iSize, granted(n));
      if pcTemp == 0 {
        uart.WritePolling(MESSAGE);
        iRet := -1;
        break;
      }
      pcBuff := pcTemp;
      assert heap.live == live0[pcBuff := iSize];
    }
    uart.WritePolling(text);
    heap.Free(pcBuff);
    assert heap.live == live0;
  }

  /** Whatever vsnprintf and realloc do, the loop ends by the eighth doubling, and iSize stays an int. */
  lemma {:induction false} EndsByEighthDoubling(fmt: Formatter, granted: nat -> bool, k: nat)
    requires Size(k) <= HEAP_SIZE
    ensures RunFrom(fmt, granted, k).doublings <= 8
    ensures Size(RunFrom(fmt, granted, k).doublings) <= 65536
    decreases 8 - k
  {
    hide Size;
    RunStep(fmt, granted, k);
    Sizes();
    SizeMono(k, 8);
    SizeMono(k + 1, 8);
    if !Fits(fmt(k, Size(k)), Size(k)) && granted(k + 1) && Size(k + 1) <= HEAP_SIZE {
      EndsByEighthDoubling(fmt, granted, k + 1);
    }
  }

  /** Section 7.19.6.12 of ISO/IEC 9899:1999: the result is the full length, the buffer gets what fits. */
  ghost predicate C99(fmt: Formatter, text: seq<char>) {
    forall k, size :: size >= 1 ==>
      fmt(k, size) == Formatted(|text|, if |text| < size then text else text[..size - 1])
  }

  /**
   * With such a vsnprintf a result that is not negative is the length of the text, and all of it is
   * sent.  Otherwise the message is sent, and then what had fitted into the last buffer.
   */
  lemma {:induction false} NonNegativeIsLength(fmt: Formatter, granted: nat -> bool, text: seq<char>, k: nat)
    requires C99(fmt, text) && Size(k) <= HEAP_SIZE
    ensures var run := RunFrom(fmt, granted, k);
            if run.ret >= 0 then run.ret == |text| && run.sent == text
            else
              && run.ret == -1 && run.doublings > k
              && var cut := Size(run.doublings - 1) - 1;
                 0 <= cut < |text| && run.sent == MESSAGE + text[..cut]
    decreases 8 - k
  {
    hide RunFrom, Size;
    RunStep(fmt, granted, k);
    SizePositive(k);
    var f := fmt(k, Size(k));
    assert f == Formatted(|text|, if |text| < Size(k) then text else text[..Size(k) - 1]);
    if !Fits(f, Size(k)) && granted(k + 1) && Size(k + 1) <= HEAP_SIZE {
      NonNegativeIsLength(fmt, granted, text, k + 1);
    }
  }

  lemma {:induction false} SizePositive(k: nat)
    ensures Size(k) >= 256
  {
    SizeMono(0, k);
  }

  /** A text of this length does not fit into the buffer before the i-th doubling. */
  predicate CallsFor(length: nat, i: nat) {
    i >= 1 && Size(i - 1) <= length
  }

  /**
   * For every allocator: the text is sent exactly when it has fewer than 32768 characters and every
   * doubling that its length calls for is granted.
   */
  lemma {:induction false} SentExactlyWhen(fmt: Formatter, granted: nat -> bool, text: seq<char>, k: nat)
    requires C99(fmt, text) && Size(k) <= HEAP_SIZE
    ensures RunFrom(fmt, granted, k).ret == |text| <==>
            |text| < 32768 && forall i :: i > k && CallsFor(|text|, i) ==> granted(i)
    decreases 8 - k
  {
    hide RunFrom, Size;
    RunStep(fmt, granted, k);
    SizePositive(k);
    Sizes();
    SizeMono(k, 7);
    var f := fmt(k, Size(k));
    assert f == Formatted(|text|, if |text| < Size(k) then text else text[..Size(k) - 1]);
    if Fits(f, Size(k)) {
      forall i: nat | i > k ensures !CallsFor(|text|, i) {
        SizeMono(k, i - 1);
      }
    } else if !granted(k + 1) {
      assert CallsFor(|text|, k + 1);
    } else if Size(k + 1) <= HEAP_SIZE {
      SentExactlyWhen(fmt, granted, text, k + 1);
    } else {
      LastSize(k);
    }
  }

  lemma LastSize(k: nat)
    requires Size(k) <= HEAP_SIZE < Size(k + 1)
    ensures k == 7
  {
    SizeBound(k);
    Sizes();
    if k < 7 {
      SizeMono(k + 1, 7);
    }
  }
}
