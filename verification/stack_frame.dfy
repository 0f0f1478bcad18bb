/** Recovering a stack frame: from the accesses through the stack pointer to one packed structure. */
module StackFrame {
  import opened Sorting
  import opened Words

  const STACK_BIAS: nat := 4096 * 3
  const REDZONE: nat := 128

  /** An access: where it is, biased so that the frame lies above zero, and how many bytes. */
  datatype Cell = Cell(address: nat, size: nat, use: nat)

  type Access = c: Cell | c.address < U64 && c.size < U32 witness Cell(0, 0, 0)

  /** Elements of the structure: a filler of pointer size, a filler byte, or a cell. */
  datatype Element = Word(size: nat) | Pad | Kept(cell: Access) {
    function Size(): nat {
      match this
      case Word(n) => n
      case Pad => 1
      case Kept(c) => c.size
    }
  }

  function Total(elements: seq<Element>): nat {
    if elements == [] then 0 else Total(elements[..|elements| - 1]) + elements[|elements| - 1].Size()
  }

  lemma TotalAppend(a: seq<Element>, e: Element)
    ensures Total(a + [e]) == Total(a) + e.Size()
  {
    assert (a + [e])[..|a|] == a;
  }

  /** How many kept cells wrap around the end of the address space. */
  function Wraps(elements: seq<Element>): nat {
    if elements == [] then 0
    else
      var last := elements[|elements| - 1];
      Wraps(elements[..|elements| - 1]) + if last.Kept? && !Fits(last.cell) then 1 else 0
  }

  lemma WrapsAppend(a: seq<Element>, e: Element)
    ensures Wraps(a + [e]) == Wraps(a) + if e.Kept? && !Fits(e.cell) then 1 else 0
  {
    assert (a + [e])[..|a|] == a;
  }

  lemma {:induction false} WrapsFill(a: seq<Element>, fill: seq<Element>)
    requires forall e | e in fill :: !e.Kept?
    ensures Wraps(a + fill) == Wraps(a)
    decreases |fill|
  {
    if fill == [] {
      assert a + fill == a;
    } else {
      var init := fill[..|fill| - 1];
      assert a + fill == (a + init) + [fill[|fill| - 1]];
      WrapsFill(a, init);
      WrapsAppend(a + init, fill[|fill| - 1]);
    }
  }

  lemma {:induction false} NoWraps(elements: seq<Element>)
    requires forall e | e in elements && e.Kept? :: Fits(e.cell)
    ensures Wraps(elements) == 0
  {
    if elements != [] {
      NoWraps(elements[..|elements| - 1]);
      assert elements[|elements| - 1] in elements;
    }
  }

  /** The address of an access at offset `ea` from the stack pointer, in pointers of 32 or 64 bits. */
  function Biased(ea: nat, narrow: bool): nat {
    if narrow then
      var low := ea % U32;
      (if low < U32 / 2 then low + STACK_BIAS else low - U32 + STACK_BIAS) % U64
    else (ea + STACK_BIAS) % U64
  }

  /** The bias keeps an offset in order with the others exactly when it reaches no further down than
      the bias itself; deeper ones wrap to the top of the address space. */
  lemma BiasedIff(d: int, narrow: bool)
    requires if narrow then -(U32 / 2) <= d < U32 / 2 else -(U64 / 2) <= d < U64 / 2
    ensures Biased(if narrow then d % U32 else d % U64, narrow) == (STACK_BIAS + d) % U64
    ensures Biased(if narrow then d % U32 else d % U64, narrow) == STACK_BIAS + d <==> d + STACK_BIAS >= 0
  {
    if narrow {
      ModEqual(d, if d < 0 then d + U32 else d, U32);
      SmallMod(if d < 0 then d + U32 else d, U32);
      MultipleMod(-1, U32);
      assert (d % U32) % U32 == d % U32;
      if d + STACK_BIAS >= 0 { SmallMod(d + STACK_BIAS, U64); }
    } else {
      ModEqual(d % U64 + STACK_BIAS, d + STACK_BIAS, U64);
      ModEqual(d % U64, d, U64);
      assert (d % U64) % U64 == d % U64;
      if d + STACK_BIAS >= 0 { SmallMod(d + STACK_BIAS, U64); }
    }
  }

  /** In order of address, wider cells first. */
  const BY_ADDRESS := (c: Access) => c.address * U32 - c.size

  lemma AddressOrder(a: Access, b: Access)
    requires BY_ADDRESS(a) <= BY_ADDRESS(b)
    ensures a.address <= b.address && (a.address == b.address ==> a.size >= b.size)
  {
  }

  /** The span of the frame: at least the red zone below the stack pointer. */
  method Span(cells: seq<Access>) returns (min: nat, max: nat)
    ensures min <= STACK_BIAS - REDZONE < STACK_BIAS <= max < U64
    ensures forall c | c in cells :: min <= c.address && (c.address + c.size) % U64 <= max
    ensures min == STACK_BIAS - REDZONE || exists c :: c in cells && min == c.address
    ensures max == STACK_BIAS || exists c :: c in cells && max == (c.address + c.size) % U64
  {
    min, max := STACK_BIAS - REDZONE, STACK_BIAS;
    for i := 0 to |cells|
      invariant min <= STACK_BIAS - REDZONE && STACK_BIAS <= max < U64
      invariant forall k | 0 <= k < i :: min <= cells[k].address && (cells[k].address + cells[k].size) % U64 <= max
      invariant min == STACK_BIAS - REDZONE || exists c :: c in cells && min == c.address
      invariant max == STACK_BIAS || exists c :: c in cells && max == (c.address + c.size) % U64
    {
      var c := cells[i];
      assert c in cells;
      if c.address < min {
        min := c.address;
      }
      if (c.address + c.size) % U64 > max {
        max := (c.address + c.size) % U64;
      }
    }
  }

  /** No access wraps around the end of the address space. */
  predicate Fits(c: Access) {
    c.address + c.size < U64
  }

  /** A cell lies within the frame exactly when it does not wrap. */
  lemma WithinIff(c: Access, min: nat, max: nat)
    requires min <= c.address && (c.address + c.size) % U64 <= max < U64
    ensures min <= c.address && c.address + c.size <= max <==> Fits(c)
  {
  }

  /** What fills a gap: words while they fit, then bytes. */
  function Filler(gap: nat, word: nat): seq<Element>
    decreases gap
  {
    if gap == 0 then []
    else if word != 0 && word <= gap then [Word(word)] + Filler(gap - word, word)
    else [Pad] + Filler(gap - 1, 0)
  }

  lemma {:induction false} FillerTotal(gap: nat, word: nat)
    ensures Total(Filler(gap, word)) == gap
    ensures forall e | e in Filler(gap, word) :: !e.Kept?
    decreases gap
  {
    if gap != 0 {
      var first, rest := if word != 0 && word <= gap then word else 1, if word != 0 && word <= gap then word else 0;
      FillerTotal(gap - first, rest);
      TotalConcat([Filler(gap, word)[0]], Filler(gap - first, rest));
      TotalAppend([], Filler(gap, word)[0]);
      assert [] + [Filler(gap, word)[0]] == [Filler(gap, word)[0]];
    }
  }

  /** The size of a pointer. */
  predicate PointerSize(word: nat) {
    word == 4 || word == 8
  }

  /** Where the filler is after so many words. */
  function Filled(running: nat, word: nat, n: nat): nat {
    (running + n * word) % U64
  }

  /** The filler stops at words before it passes the end of the address space. */
  predicate FillEnds(running: nat, ea: nat, word: nat)
    requires word > 0
  {
    ea < U64 - word + running % word
  }

  /** The filler puts another word while that takes it no further than the end of the gap.  Its sum
      wraps around, so if the gap reaches into the last word of the address space it may go on for
      ever: this is when it does not. */
  lemma FillEndsIff(running: nat, ea: nat, word: nat)
    requires PointerSize(word) && running <= ea < U64
    ensures (exists n: nat :: n > 0 && Filled(running, word, n) > ea) <==> FillEnds(running, ea, word)
  {
    hide Filled;
    forall n: nat
      ensures Filled(running, word, n) <= U64 - word + running % word
    {
      FilledClass(running, word, n);
    }
    if FillEnds(running, ea, word) {
      var n := FillReaches(running, word, if word == 4 then U64 / 4 else U64 / 8);
      assert n > 0 && Filled(running, word, n) > ea;
    }
  }

  /** The filler does come to the last word of its class. */
  lemma FillReaches(running: nat, word: nat, m: nat) returns (n: nat)
    requires word > 0 && U64 == word * m && running < U64 - word + running % word
    ensures n > 0 && Filled(running, word, n) == U64 - word + running % word
  {
    var q, r := running / word, running % word;
    assert running == word * q + r;
    var left := m - 1 - q;
    assert word * left == U64 - word - word * q;
    assert left > 0 by {
      Grows(left, word);
    }
    n := left;
    SmallMod(U64 - word + r, U64);
  }

  lemma FilledCongruent(running: nat, word: nat, m: nat, n: nat)
    requires word > 0 && U64 == word * m
    ensures Filled(running, word, n) % word == running % word
  {
    var x := running + n * word;
    var v, q := x % U64, x / U64;
    assert v - running == word * (n - m * q) by {
      assert x == U64 * q + v;
      assert (word * m) * q == word * (m * q);
      assert word * (n - m * q) == word * n - word * (m * q);
    }
    MultipleMod(n - m * q, word);
    ModEqual(v, running, word);
  }

  lemma FilledClass(running: nat, word: nat, n: nat)
    requires PointerSize(word)
    ensures Filled(running, word, n) <= U64 - word + running % word
  {
    var v := Filled(running, word, n);
    if word == 4 {
      FilledCongruent(running, 4, U64 / 4, n);
      LastOfClass(v, running, 4);
    } else {
      FilledCongruent(running, 8, U64 / 8, n);
      LastOfClass(v, running, 8);
    }
  }

  lemma LastOfClass(v: nat, running: nat, word: nat)
    requires PointerSize(word) && v < U64 && v % word == running % word
    ensures v <= U64 - word + running % word
  {
  }

  /** The sum the filler compares with the end of the gap. */
  function NextWord(at: nat, word: nat): nat {
    (at + word) % U64
  }

  /** Some words into a gap. */
  predicate OnWay(running: nat, at: nat, ea: nat, word: nat)
    requires word > 0
  {
    running <= at <= ea && at % word == running % word
  }

  lemma OnWayStart(running: nat, ea: nat, word: nat)
    requires word > 0 && running <= ea
    ensures OnWay(running, running, ea, word)
  {
  }

  /** In a gap whose filler ends, the next word is not past the end of the address space. */
  lemma OnWayNext(running: nat, at: nat, ea: nat, word: nat)
    requires PointerSize(word) && FillEnds(running, ea, word) && OnWay(running, at, ea, word)
    ensures NextWord(at, word) == at + word
    ensures at + word <= ea ==> OnWay(running, at + word, ea, word)
  {
    var m := if word == 4 then U64 / 4 else U64 / 8;
    var q, r := at / word, at % word;
    assert at == word * q + r;
    var left := m - 1 - q;
    assert word * left == U64 - word - word * q;
    Grows(left, word);
    SmallMod(at + word, U64);
    MultipleMod(1, word);
    ModEqual(at + word, at, word);
  }

  /** Fill the gap between two addresses.  The size of the words is that of a pointer, whatever the
      last cell was: it was copied when the filler was made. */
  method FillUpTo(running: nat, ea: nat, word: nat) returns (fill: seq<Element>)
    requires running <= ea < U64 && PointerSize(word) && FillEnds(running, ea, word)
    ensures fill == Filler(ea - running, word)
  {
    hide FillEnds, Filler, OnWay, NextWord;
    fill := [];
    var at := running;
    assert [] + Filler(ea - at, word) == Filler(ea - at, word);
    OnWayStart(running, ea, word);
    OnWayNext(running, at, ea, word);
    while NextWord(at, word) <= ea
      invariant running <= at <= ea && OnWay(running, at, ea, word) && NextWord(at, word) == at + word
      invariant Filler(ea - running, word) == fill + Filler(ea - at, word)
      decreases ea - at
    {
      WordStep(fill, ea - at, word);
      OnWayNext(running, at, ea, word);
      fill := fill + [Word(word)];
      at := NextWord(at, word);
      OnWayNext(running, at, ea, word);
    }
    BytesFrom(ea - at, word);
    NoneLeft();
    while at < ea
      invariant running <= at <= ea
      invariant Filler(ea - running, word) == fill + Filler(ea - at, 0)
    {
      PadStep(fill, ea - at);
      fill := fill + [Pad];
      at := at + 1;
    }
  }

  lemma NoneLeft()
    ensures Filler(0, 0) == []
  {
  }

  lemma WordStep(fill: seq<Element>, gap: nat, word: nat)
    requires 0 < word <= gap
    ensures fill + Filler(gap, word) == fill + [Word(word)] + Filler(gap - word, word)
  {
    assert Filler(gap, word) == [Word(word)] + Filler(gap - word, word);
  }

  lemma PadStep(fill: seq<Element>, gap: nat)
    requires gap > 0
    ensures fill + Filler(gap, 0) == fill + [Pad] + Filler(gap - 1, 0)
  {
    assert Filler(gap, 0) == [Pad] + Filler(gap - 1, 0);
  }

  lemma BytesFrom(gap: nat, word: nat)
    requires word == 0 || gap < word
    ensures Filler(gap, word) == Filler(gap, 0)
  {
  }

  // ---------- the structure ----------

  /** Every kept cell has the offset it had in the frame, and another whole address space for every
      cell before it that wraps. */
  predicate Placed(min: nat, elements: seq<Element>) {
    forall j | 0 <= j < |elements| && elements[j].Kept? ::
      min + Total(elements[..j]) == elements[j].cell.address + U64 * Wraps(elements[..j])
  }

  predicate AllFit(cells: seq<Access>) {
    forall c | c in cells :: Fits(c)
  }

  /** Neither end of an access is in the last word of the address space. */
  predicate Clear(c: Access, word: nat) {
    c.address + word < U64 && (c.address + c.size) % U64 + word < U64
  }

  /** A cell is an element, or starts inside an earlier one. */
  ghost predicate Accounted(elements: seq<Element>, c: Access) {
    Kept(c) in elements
    || exists k: Access :: Kept(k) in elements && k.address <= c.address < k.address + k.size
  }

  /** Of the accesses at one address the widest is kept. */
  ghost predicate Widest(elements: seq<Element>, accesses: seq<Access>) {
    forall e, d | e in elements && e.Kept? && d in accesses && d.address == e.cell.address :: d.size <= e.cell.size
  }

  lemma WidestAppend(elements: seq<Element>, accesses: seq<Access>, cells: seq<Access>, i: nat, running: nat)
    requires Widest(elements, accesses) && SortedBy(cells, BY_ADDRESS) && i < |cells|
    requires forall d :: d in cells <==> d in accesses
    requires running <= cells[i].address
    requires forall k | 0 <= k < i :: Passed(cells[k], running)
    ensures Widest(elements + [Kept(cells[i])], accesses)
  {
    var c := cells[i];
    forall d | d in accesses && d.address == c.address
      ensures d.size <= c.size
    {
      assert d in cells;
      var k :| 0 <= k < |cells| && cells[k] == d;
      if k < i {
        assert Passed(cells[k], running);
      } else if i < k {
        assert BY_ADDRESS(cells[i]) <= BY_ADDRESS(cells[k]);
        AddressOrder(c, d);
      }
    }
  }

  /** Everything up to the running address has been dealt with. */
  predicate Passed(c: Access, running: nat) {
    running > c.address || (running == c.address && c.size == 0)
  }

  lemma WidestMore(elements: seq<Element>, more: seq<Element>, accesses: seq<Access>)
    requires forall e | e in more && e.Kept? :: e in elements
    requires Widest(elements, accesses)
    ensures Widest(more, accesses)
  {
  }

  lemma {:induction false} TotalConcat(a: seq<Element>, b: seq<Element>)
    ensures Total(a + b) == Total(a) + Total(b)
    decreases |b|
  {
    if b == [] {
      assert a + b == a;
    } else {
      var init := b[..|b| - 1];
      assert (a + b)[..|a + b| - 1] == a + init;
      TotalConcat(a, init);
    }
  }

  lemma PlacedAppend(min: nat, elements: seq<Element>, fill: seq<Element>, last: seq<Element>)
    requires Placed(min, elements) && (forall e | e in fill :: !e.Kept?)
    requires last == [] || (|last| == 1 && last[0].Kept?
               && min + Total(elements + fill) == last[0].cell.address + U64 * Wraps(elements + fill))
    ensures Placed(min, elements + fill + last)
  {
    var all := elements + fill + last;
    forall j | 0 <= j < |all| && all[j].Kept?
      ensures min + Total(all[..j]) == all[j].cell.address + U64 * Wraps(all[..j])
    {
      if j < |elements| {
        assert all[..j] == elements[..j];
      } else {
        assert forall i | |elements| <= i < |elements| + |fill| :: all[i] in fill;
        assert all[..j] == elements + fill;
      }
    }
  }

  lemma AccountedAppend(elements: seq<Element>, more: seq<Element>, c: Access)
    requires Accounted(elements, c)
    ensures Accounted(elements + more, c)
  {
    if Kept(c) !in elements {
      var k: Access :| Kept(k) in elements && k.address <= c.address < k.address + k.size;
      assert Kept(k) in elements + more;
    }
  }

  // ---------- the fillers in the structure ----------

  /** All elements between two kept ones, or an end of the structure. */
  predicate IsRun(elements: seq<Element>, i: int, j: int) {
    && 0 <= i <= j <= |elements|
    && (forall k | i <= k < j :: !elements[k].Kept?)
    && (i == 0 || elements[i - 1].Kept?) && (j == |elements| || elements[j].Kept?)
  }

  /** The first `n` are words, and then come fewer bytes than would make another. */
  predicate Made(run: seq<Element>, word: nat, n: nat) {
    n <= |run| < n + word && forall k | 0 <= k < |run| :: run[k] == if k < n then Word(word) else Pad
  }

  ghost predicate WordsThenBytes(run: seq<Element>, word: nat) {
    exists n: nat :: Made(run, word, n)
  }

  /** Every run is what fills a gap. */
  ghost predicate Filling(elements: seq<Element>, word: nat) {
    forall i, j | IsRun(elements, i, j) :: WordsThenBytes(elements[i..j], word)
  }

  lemma {:induction false} FillerIs(gap: nat, word: nat)
    requires word > 0
    ensures WordsThenBytes(Filler(gap, word), word)
    decreases gap
  {
    if word <= gap {
      FillerIs(gap - word, word);
      var rest := Filler(gap - word, word);
      var n: nat :| Made(rest, word, n);
      assert Filler(gap, word) == [Word(word)] + rest;
      assert Made(Filler(gap, word), word, n + 1);
    } else {
      AllPads(gap);
      BytesFrom(gap, word);
      assert Made(Filler(gap, word), word, 0);
    }
  }

  lemma {:induction false} AllPads(gap: nat)
    ensures |Filler(gap, 0)| == gap && forall k | 0 <= k < gap :: Filler(gap, 0)[k] == Pad
    decreases gap
  {
    if gap > 0 {
      AllPads(gap - 1);
      assert Filler(gap, 0) == [Pad] + Filler(gap - 1, 0);
    }
  }

  /** Behind a kept element, or at the front, comes a filler and then a kept element or the end. */
  lemma FillingAppend(elements: seq<Element>, fill: seq<Element>, last: seq<Element>, word: nat)
    requires word > 0 && Filling(elements, word) && WordsThenBytes(fill, word)
    requires forall k | 0 <= k < |fill| :: !fill[k].Kept?
    requires elements == [] || elements[|elements| - 1].Kept?
    requires |last| <= 1 && forall k | 0 <= k < |last| :: last[k].Kept?
    ensures Filling(elements + fill + last, word)
  {
    hide WordsThenBytes;
    var all := elements + fill + last;
    forall i, j | IsRun(all, i, j)
      ensures WordsThenBytes(all[i..j], word)
    {
      RunOf(elements, fill, last, i, j);
      if j < |elements| {
        assert forall k | 0 <= k < |elements| :: all[k] == elements[k];
        assert IsRun(elements, i, j) && all[i..j] == elements[i..j];
      } else if i != j {
        assert all[i..j] == fill;
      } else {
        NoneMade(all[i..j], word);
      }
    }
  }

  lemma NoneMade(run: seq<Element>, word: nat)
    requires run == [] && word > 0
    ensures WordsThenBytes(run, word)
  {
    assert Made(run, word, 0);
  }

  /** A run of the whole is one of those before, the filler, or empty. */
  lemma RunOf(elements: seq<Element>, fill: seq<Element>, last: seq<Element>, i: int, j: int)
    requires IsRun(elements + fill + last, i, j)
    requires forall k | 0 <= k < |fill| :: !fill[k].Kept?
    requires elements == [] || elements[|elements| - 1].Kept?
    requires |last| <= 1 && forall k | 0 <= k < |last| :: last[k].Kept?
    ensures j < |elements| || i == j || (i == |elements| && j == |elements| + |fill|)
  {
    var all, e := elements + fill + last, |elements|;
    assert forall k | e <= k < e + |fill| :: all[k] == fill[k - e];
    assert last != [] ==> all[e + |fill|] == last[0];
    assert e > 0 ==> all[e - 1] == elements[e - 1];
  }

  /** Whether all fillers end, from an address on: in front of every cell that is kept, and of the
      end of the frame. */
  predicate AllEnd(cells: seq<Access>, running: nat, max: nat, word: nat)
    requires word > 0
  {
    if cells == [] then running < max ==> FillEnds(running, max, word)
    else if running > cells[0].address then AllEnd(cells[1..], running, max, word)
    else
      && FillEnds(running, cells[0].address, word)
      && AllEnd(cells[1..], (cells[0].address + cells[0].size) % U64, max, word)
  }

  /** The elements up to the running address. */
  ghost predicate Laid(min: nat, elements: seq<Element>, running: nat, accesses: seq<Access>) {
    && running < U64 && min + Total(elements) == running + U64 * Wraps(elements) && Placed(min, elements)
    && (forall e | e in elements && e.Kept? :: e.cell in accesses)
    && (AllFit(accesses) ==> Widest(elements, accesses))
  }

  /** The first cells have been dealt with. */
  ghost predicate Done(cells: seq<Access>, i: nat, elements: seq<Element>, running: nat)
    requires i <= |cells|
  {
    forall k | 0 <= k < i :: Accounted(elements, cells[k]) && (AllFit(cells) ==> Passed(cells[k], running))
  }

  /** The last cell kept, if any, is where the running address comes from. */
  ghost predicate From(last: seq<Access>, min: nat, elements: seq<Element>, running: nat, rest: seq<Access>) {
    if last == [] then running == min
    else
      && Kept(last[0]) in elements && running == (last[0].address + last[0].size) % U64
      && forall c | c in rest :: last[0].address <= c.address
  }

  ghost predicate Sorted(cells: seq<Access>, accesses: seq<Access>) {
    SortedBy(cells, BY_ADDRESS) && forall c :: c in cells <==> c in accesses
  }

  /** The elements so far, ready for the next filler. */
  ghost predicate Ready(elements: seq<Element>, word: nat) {
    Filling(elements, word) && (elements == [] || elements[|elements| - 1].Kept?)
  }

  lemma ReadyFilling(elements: seq<Element>, word: nat)
    requires Ready(elements, word)
    ensures Filling(elements, word)
  {
  }

  lemma NothingFilled(word: nat)
    requires word > 0
    ensures Ready([], word)
  {
    forall i, j | IsRun([], i, j)
      ensures WordsThenBytes([][i..j], word)
    {
      NoneMade([][i..j], word);
    }
  }

  lemma ReadyNext(elements: seq<Element>, gap: nat, last: seq<Element>, word: nat)
    requires word > 0 && Ready(elements, word)
    requires |last| <= 1 && forall k | 0 <= k < |last| :: last[k].Kept?
    ensures Filling(elements + Filler(gap, word) + last, word)
    ensures last != [] ==> Ready(elements + Filler(gap, word) + last, word)
  {
    hide Filler, Filling, Total;
    FillerTotal(gap, word);
    FillerIs(gap, word);
    forall k | 0 <= k < |Filler(gap, word)|
      ensures !Filler(gap, word)[k].Kept?
    {
      assert Filler(gap, word)[k] in Filler(gap, word);
    }
    FillingAppend(elements, Filler(gap, word), last, word);
  }

  /** Lay out the frame; `ended` unless some filler goes on for ever.  Accesses that wrap are kept
      like others, but put everything behind them a whole address space further. */
  method BuildFrame(accesses: seq<Access>, word: nat)
    returns (min: nat, max: nat, elements: seq<Element>, ended: bool)
    requires PointerSize(word)
    ensures ended <==> AllEnd(Sort(accesses, BY_ADDRESS), min, max, word)
    ensures (forall c | c in accesses :: Clear(c, word)) ==> ended
    ensures ended ==> min + Total(elements) == max + U64 * Wraps(elements) && Placed(min, elements)
    ensures ended ==> forall c | c in accesses :: Accounted(elements, c)
    ensures forall e | e in elements && e.Kept? :: e.cell in accesses
    ensures forall c | c in accesses :: min <= c.address && (c.address + c.size <= max <==> Fits(c))
    ensures ended && AllFit(accesses) ==> Wraps(elements) == 0 && Widest(elements, accesses)
    ensures min <= 12160 && 12288 <= max
    ensures min == 12160 || exists c :: c in accesses && min == c.address
    ensures max == 12288 || exists c :: c in accesses && max == (c.address + c.size) % U64
    ensures ended ==> Filling(elements, word)
  {
    hide Ready, Filling, Total, Wraps, Placed, Accounted, Sort, Fits, Widest, Laid, Done, From, SortedBy, AllFit,
         FillEnds, AllEnd, Clear, Filler;
    min, max := Span(accesses);
    AllWithin(accesses, min, max);
    var cells := Sort(accesses, BY_ADDRESS);
    SortMeans(accesses, BY_ADDRESS);
    elements, ended := [], true;
    var running: nat := min;
    ghost var last: seq<Access> := [];
    NothingYet(min, accesses, cells);
    NothingFilled(word);
    assert cells[0..] == cells;
    for i := 0 to |cells|
      invariant Laid(min, elements, running, accesses) && Done(cells, i, elements, running)
      invariant From(last, min, elements, running, cells[i..]) && running <= max && Ready(elements, word)
      invariant AllEnd(cells, min, max, word) == AllEnd(cells[i..], running, max, word)
    {
      var c := cells[i];
      EndStep(cells[i..], running, max, word);
      assert cells[i..][0] == c && cells[i..][1..] == cells[i + 1..];
      assert c in accesses;
      LaidIn(min, elements, running, accesses);
      if running <= c.address {
        if !FillEnds(running, c.address, word) {
          NotClear(c, running, word);
          assert !AllEnd(cells, min, max, word);
          ended := false;
          return;
        }
        var fill := FillUpTo(running, c.address, word);
        KeepCell(min, elements, running, c, word, cells, i, accesses);
        ReadyNext(elements, c.address - running, [Kept(c)], word);
        elements := elements + fill + [Kept(c)];
        running := (c.address + c.size) % U64;
        last := [c];
      } else {
        DropCell(min, elements, running, last, cells, i, accesses);
      }
    }
    LaidIn(min, elements, running, accesses);
    assert cells[|cells|..] == [];
    EndStep([], running, max, word);
    if running < max {
      if !FillEnds(running, max, word) {
        MaxClear(accesses, max, running, word);
        ended := false;
        return;
      }
      var fill := FillUpTo(running, max, word);
      FilledUp(min, elements, running, max, word, cells, accesses);
      ReadyNext(elements, max - running, [], word);
      assert elements + fill + [] == elements + fill;
      elements := elements + fill;
    } else {
      ReadyFilling(elements, word);
    }
    AllDone(min, elements, max, cells, accesses, if running < max then max else running);
  }

  lemma LaidIn(min: nat, elements: seq<Element>, running: nat, accesses: seq<Access>)
    requires Laid(min, elements, running, accesses)
    ensures running < U64 && forall e | e in elements && e.Kept? :: e.cell in accesses
  {
  }

  lemma EndStep(cells: seq<Access>, running: nat, max: nat, word: nat)
    requires word > 0
    ensures AllEnd(cells, running, max, word)
            == if cells == [] then running < max ==> FillEnds(running, max, word)
               else if running > cells[0].address then AllEnd(cells[1..], running, max, word)
               else
                 && FillEnds(running, cells[0].address, word)
                 && AllEnd(cells[1..], (cells[0].address + cells[0].size) % U64, max, word)
  {
  }

  lemma NotClear(c: Access, running: nat, word: nat)
    requires PointerSize(word) && !FillEnds(running, c.address, word)
    ensures !Clear(c, word)
  {
  }

  lemma MaxClear(accesses: seq<Access>, max: nat, running: nat, word: nat)
    requires PointerSize(word) && !FillEnds(running, max, word)
    requires max == STACK_BIAS || exists c :: c in accesses && max == (c.address + c.size) % U64
    ensures exists c :: c in accesses && !Clear(c, word)
  {
    var c :| c in accesses && max == (c.address + c.size) % U64;
    assert !Clear(c, word);
  }

  lemma AllWithin(accesses: seq<Access>, min: nat, max: nat)
    requires max < U64
    requires forall c | c in accesses :: min <= c.address && (c.address + c.size) % U64 <= max
    ensures forall c | c in accesses :: min <= c.address && (c.address + c.size <= max <==> Fits(c))
  {
    forall c | c in accesses
      ensures c.address + c.size <= max <==> Fits(c)
    {
      WithinIff(c, min, max);
    }
  }

  lemma NothingYet(min: nat, accesses: seq<Access>, cells: seq<Access>)
    requires min < U64
    ensures Laid(min, [], min, accesses) && Done(cells, 0, [], min) && From([], min, [], min, cells[0..])
  {
  }

  lemma KeepCell(min: nat, elements: seq<Element>, running: nat, c: Access, word: nat,
                 cells: seq<Access>, i: nat, accesses: seq<Access>)
    requires i < |cells| && c == cells[i] && Sorted(cells, accesses)
    requires Laid(min, elements, running, accesses) && Done(cells, i, elements, running)
    requires running <= c.address
    ensures
      var r, next := elements + Filler(c.address - running, word) + [Kept(c)], (c.address + c.size) % U64;
      && Laid(min, r, next, accesses) && Done(cells, i + 1, r, next)
      && From([c], min, r, next, cells[i + 1..])
  {
    hide Total, Wraps, Placed, Widest, Filler, Fits, Done, Accounted, SortedBy;
    var fill := Filler(c.address - running, word);
    FillerTotal(c.address - running, word);
    KeepLaid(min, elements, running, fill, c, accesses);
    if AllFit(accesses) {
      KeepWidest(elements, running, fill, c, cells, i, accesses);
    }
    KeepDone(elements, running, fill, c, cells, i, accesses);
    Later(cells, i);
  }

  lemma KeepLaid(min: nat, elements: seq<Element>, running: nat, fill: seq<Element>, c: Access, accesses: seq<Access>)
    requires min + Total(elements) == running + U64 * Wraps(elements) && Placed(min, elements)
    requires running <= c.address && Total(fill) == c.address - running && forall e | e in fill :: !e.Kept?
    ensures var r := elements + fill + [Kept(c)];
            min + Total(r) == (c.address + c.size) % U64 + U64 * Wraps(r) && Placed(min, r)
  {
    hide Total, Wraps, Placed;
    TotalConcat(elements, fill);
    TotalAppend(elements + fill, Kept(c));
    WrapsFill(elements, fill);
    WrapsAppend(elements + fill, Kept(c));
    PlacedAppend(min, elements, fill, [Kept(c)]);
    if !Fits(c) { OneWrap(c); } else { SmallMod(c.address + c.size, U64); }
  }

  lemma OneWrap(c: Access)
    requires !Fits(c)
    ensures (c.address + c.size) % U64 == c.address + c.size - U64
  {
  }

  lemma KeepWidest(elements: seq<Element>, running: nat, fill: seq<Element>, c: Access,
                   cells: seq<Access>, i: nat, accesses: seq<Access>)
    requires i < |cells| && c == cells[i] && Sorted(cells, accesses) && AllFit(accesses)
    requires Done(cells, i, elements, running) && Widest(elements, accesses)
    requires running <= c.address && forall e | e in fill :: !e.Kept?
    ensures Widest(elements + fill + [Kept(c)], accesses)
  {
    hide Accounted, Fits, SortedBy, Widest, Passed;
    assert AllFit(cells);
    WidestAppend(elements, accesses, cells, i, running);
    WidestMore(elements + [Kept(c)], elements + fill + [Kept(c)], accesses);
  }

  lemma KeepDone(elements: seq<Element>, running: nat, fill: seq<Element>, c: Access,
                 cells: seq<Access>, i: nat, accesses: seq<Access>)
    requires i < |cells| && c == cells[i] && Done(cells, i, elements, running) && running <= c.address
    ensures Done(cells, i + 1, elements + fill + [Kept(c)], (c.address + c.size) % U64)
  {
    var r := elements + fill + [Kept(c)];
    forall k | 0 <= k < i + 1
      ensures Accounted(r, cells[k]) && (AllFit(cells) ==> Passed(cells[k], (c.address + c.size) % U64))
    {
      assert AllFit(cells) ==> Fits(c);
      if k < i {
        AccountedAppend(elements, fill, cells[k]);
        AccountedAppend(elements + fill, [Kept(c)], cells[k]);
      }
    }
  }

  lemma Later(cells: seq<Access>, i: nat)
    requires i < |cells| && SortedBy(cells, BY_ADDRESS)
    ensures forall d | d in cells[i + 1..] :: cells[i].address <= d.address
  {
    forall k | i < k < |cells|
      ensures cells[i].address <= cells[k].address
    {
      AddressOrder(cells[i], cells[k]);
    }
  }

  lemma DropCell(min: nat, elements: seq<Element>, running: nat, last: seq<Access>,
                 cells: seq<Access>, i: nat, accesses: seq<Access>)
    requires i < |cells| && Done(cells, i, elements, running) && running > cells[i].address
    requires From(last, min, elements, running, cells[i..]) && min <= cells[i].address
    ensures Done(cells, i + 1, elements, running) && From(last, min, elements, running, cells[i + 1..])
  {
    assert cells[i] in cells[i..] && forall c | c in cells[i + 1..] :: c in cells[i..];
    assert Accounted(elements, cells[i]);
  }

  lemma FilledUp(min: nat, elements: seq<Element>, running: nat, max: nat, word: nat,
                 cells: seq<Access>, accesses: seq<Access>)
    requires running <= max < U64
    requires Laid(min, elements, running, accesses) && Done(cells, |cells|, elements, running)
    ensures Laid(min, elements + Filler(max - running, word), max, accesses)
    ensures Done(cells, |cells|, elements + Filler(max - running, word), max)
  {
    hide Total, Filler, Wraps;
    var fill := Filler(max - running, word);
    FillerTotal(max - running, word);
    TotalConcat(elements, fill);
    WrapsFill(elements, fill);
    PlacedAppend(min, elements, fill, []);
    assert elements + fill + [] == elements + fill;
    if AllFit(accesses) {
      WidestMore(elements, elements + fill, accesses);
    }
    forall k | 0 <= k < |cells|
      ensures Accounted(elements + fill, cells[k])
    {
      AccountedAppend(elements, fill, cells[k]);
    }
  }

  lemma AllDone(min: nat, elements: seq<Element>, max: nat, cells: seq<Access>, accesses: seq<Access>, running: nat)
    requires forall c :: c in cells <==> c in accesses
    requires Laid(min, elements, running, accesses) && Done(cells, |cells|, elements, running) && running == max
    ensures min + Total(elements) == max + U64 * Wraps(elements) && Placed(min, elements)
    ensures AllFit(accesses) ==> Wraps(elements) == 0 && Widest(elements, accesses)
    ensures forall c | c in accesses :: Accounted(elements, c)
    ensures forall e | e in elements && e.Kept? :: e.cell in accesses
  {
    if AllFit(accesses) { NoWraps(elements); }
    forall c | c in accesses
      ensures Accounted(elements, c)
    {
      assert c in cells;
    }
  }
}
