/** Where the arguments of a variadic print call are read from, against section 3.2.3 of the System V
    AMD64 psABI. */
module PrintfArgs {

  /** The class of an argument: an integer or pointer, a double, or a long double. */
  datatype Param = Integer | Double | LongDouble

  /** Where an argument is: the n-th of RDI, RSI, RDX, RCX, R8, R9; the n-th XMM register; or at an
      offset from RSP at the call. */
  datatype Location = Gpr(n: nat) | Xmm(n: nat) | Stack(offset: nat)

  // ---------- the calling convention ----------

  /** The next registers of each kind while there are any, and then the next eightbytes of the
      stack.  A long double is passed on the stack, in two eightbytes aligned to sixteen; the first
      eightbyte, above the return address, is aligned. */
  function Convention(params: seq<Param>, gprs: nat, xmms: nat, slot: nat): seq<Location> {
    if params == [] then []
    else match params[0]
      case Integer =>
        if gprs < 6 then [Gpr(gprs)] + Convention(params[1..], gprs + 1, xmms, slot)
        else [Stack(8 * slot)] + Convention(params[1..], gprs, xmms, slot + 1)
      case Double =>
        if xmms < 8 then [Xmm(xmms)] + Convention(params[1..], gprs, xmms + 1, slot)
        else [Stack(8 * slot)] + Convention(params[1..], gprs, xmms, slot + 1)
      case LongDouble =>
        var aligned := if slot % 2 == 1 then slot else slot + 1;
        [Stack(8 * aligned)] + Convention(params[1..], gprs, xmms, aligned + 2)
  }

  function Count(params: seq<Param>, p: Param): nat {
    if params == [] then 0 else (if params[0] == p then 1 else 0) + Count(params[1..], p)
  }

  // ---------- what the pass does ----------

  /** One argument after another: doubles from the XMM registers whose aliases were found, all
      others from the general registers and then from consecutive stack slots.  A double for which
      there is no register, or no alias of it, is dropped. */
  function Chosen(params: seq<Param>, gprs: nat, xmms: nat, slot: nat, found: set<nat>): seq<Location> {
    if params == [] then []
    else if params[0].Double? then
      if xmms < 8 && xmms in found then [Xmm(xmms)] + Chosen(params[1..], gprs, xmms + 1, slot, found)
      else Chosen(params[1..], gprs, xmms, slot, found)
    else if gprs < 6 then [Gpr(gprs)] + Chosen(params[1..], gprs + 1, xmms, slot, found)
    else [Stack(8 * slot)] + Chosen(params[1..], gprs, xmms, slot + 1, found)
  }

  method CountDoubles(params: seq<Param>) returns (n: nat)
    ensures n == Count(params, Double)
  {
    n := 0;
    assert params[0..] == params;
    for i := 0 to |params|
      invariant n + Count(params[i..], Double) == Count(params, Double)
    {
      assert params[i..][1..] == params[i + 1..];
      if params[i].Double? {
        n := n + 1;
      }
    }
  }

  lemma {:induction false} CountAtMost(params: seq<Param>, p: Param)
    ensures Count(params, p) <= |params|
  {
    if params != [] { CountAtMost(params[1..], p); }
  }

  lemma CountStep(params: seq<Param>, p: Param)
    ensures Count(params, p)
            == if params == [] then 0 else (if params[0] == p then 1 else 0) + Count(params[1..], p)
  {
  }

  /** One argument and the others. */
  lemma ChosenStep(params: seq<Param>, gprs: nat, xmms: nat, slot: nat, found: set<nat>)
    ensures params == [] ==> Chosen(params, gprs, xmms, slot, found) == []
    ensures params != [] ==>
      var rest := params[1..];
      Chosen(params, gprs, xmms, slot, found)
      == if params[0].Double? then
           if xmms < 8 && xmms in found then [Xmm(xmms)] + Chosen(rest, gprs, xmms + 1, slot, found)
           else Chosen(rest, gprs, xmms, slot, found)
         else if gprs < 6 then [Gpr(gprs)] + Chosen(rest, gprs + 1, xmms, slot, found)
         else [Stack(8 * slot)] + Chosen(rest, gprs, xmms, slot + 1, found)
  {
  }

  /** The argument loop.  `normal` counts general registers, `xmm` starts at six for XMM0, and the
      next stack slot is `rspCount - subOffset`.  The first parameter is the format. */
  method AssignArguments(params: seq<Param>, found: set<nat>) returns (args: seq<Location>)
    requires params != [] && params[0].Integer?
    ensures args == [Gpr(0)] + Chosen(params[1..], 1, 0, 1, found)
  {
    hide Count, Chosen;
    var normal, xmm := 0, 6;
    args := [];
    var doubles := CountDoubles(params);
    CountAtMost(params, Double);
    var rspCount, subOffset: int := 0, 0;
    var others := |params| - doubles;
    if others > 6 || doubles > 8 {
      if others > 6 {
        rspCount := rspCount + others - 6;
      }
      if doubles > 8 {
        rspCount := rspCount + doubles - 8;
      }
      subOffset := rspCount - 1;
    }
    ghost var slot: nat := 1;
    ghost var whole := [Gpr(0)] + Chosen(params[1..], 1, 0, 1, found);
    for i := 0 to |params|
      invariant i == 0 ==> normal == 0 && xmm == 6 && args == [] && slot == 1
      invariant i > 0 ==> 1 <= normal <= 6 && 6 <= xmm <= 14
      invariant i > 0 ==> whole == args + Chosen(params[i..], normal, xmm - 6, slot, found)
      invariant others > 6 || doubles > 8 ==> slot == rspCount - subOffset
      invariant i > 0 ==> normal + slot - 1 == i - (doubles - Count(params[i..], Double))
    {
      ghost var rest := params[i..];
      assert i == 0 ==> rest == params;
      assert rest[1..] == params[i + 1..];
      CountAtMost(rest[1..], Double);
      CountStep(rest, Double);
      if i > 0 { ChosenStep(rest, normal, xmm - 6, slot, found); }
      if i == 0 {
        args := args + [Gpr(0)];
        normal := normal + 1;
      } else if params[i].Double? {
        if xmm < 14 && xmm - 6 in found {
          args := args + [Xmm(xmm - 6)];
          xmm := xmm + 1;
        }
      } else if normal < 6 {
        args := args + [Gpr(normal)];
        normal := normal + 1;
      } else {
        args := args + [Stack(8 * (rspCount - subOffset))];
        subOffset := subOffset - 1;
        slot := slot + 1;
      }
    }
    ChosenStep(params[|params|..], normal, xmm - 6, slot, found);
  }

  // ---------- the two compared ----------

  lemma SameHead(h: Location, a: seq<Location>, b: seq<Location>)
    ensures [h] + a == [h] + b <==> a == b
  {
    assert ([h] + a)[1..] == a && ([h] + b)[1..] == b;
  }

  /** There are registers, and aliases of them, for so many doubles. */
  predicate Served(from: nat, count: nat, found: set<nat>) {
    forall n | from <= n < from + count :: n < 8 && n in found
  }

  lemma NotServed(from: nat, count: nat, found: set<nat>)
    requires count > 0 && !(from < 8 && from in found)
    ensures !Served(from, count, found)
  {
    assert Served(from, count, found) ==> from in found;
  }

  lemma OneMore(from: nat, count: nat, found: set<nat>)
    requires from < 8 && from in found
    ensures Served(from, count + 1, found) <==> Served(from + 1, count, found)
  {
  }

  lemma {:induction false} ConventionLength(params: seq<Param>, gprs: nat, xmms: nat, slot: nat)
    ensures |Convention(params, gprs, xmms, slot)| == |params|
    decreases |params|
  {
    if params != [] {
      ConventionLength(params[1..], gprs, xmms, slot);
      ConventionLength(params[1..], gprs + 1, xmms, slot);
      ConventionLength(params[1..], gprs, xmms + 1, slot);
      ConventionLength(params[1..], gprs, xmms, slot + 1);
      ConventionLength(params[1..], gprs, xmms, (if slot % 2 == 1 then slot else slot + 1) + 2);
    }
  }

  /** Every argument is given a place exactly when all doubles are served: the others always are. */
  lemma {:induction false} NoneLostIff(params: seq<Param>, gprs: nat, xmms: nat, slot: nat, found: set<nat>)
    requires xmms <= 8
    ensures |Chosen(params, gprs, xmms, slot, found)| <= |params|
    ensures |Chosen(params, gprs, xmms, slot, found)| == |params|
            <==> Served(xmms, Count(params, Double), found)
    decreases |params|
  {
    if params != [] {
      var rest := params[1..];
      if params[0].Double? {
        if xmms < 8 && xmms in found {
          NoneLostIff(rest, gprs, xmms + 1, slot, found);
          OneMore(xmms, Count(rest, Double), found);
        } else {
          NoneLostIff(rest, gprs, xmms, slot, found);
          NotServed(xmms, Count(params, Double), found);
        }
      } else if gprs < 6 {
        NoneLostIff(rest, gprs + 1, xmms, slot, found);
      } else {
        NoneLostIff(rest, gprs, xmms, slot + 1, found);
      }
    }
  }

  /** Any long double comes when the general registers are used up, at a slot that needs no
      aligning, and has only doubles behind it. */
  predicate LongPlaced(params: seq<Param>, gprs: nat, slot: nat) {
    if params == [] then true
    else match params[0]
      case Integer =>
        if gprs < 6 then LongPlaced(params[1..], gprs + 1, slot) else LongPlaced(params[1..], gprs, slot + 1)
      case Double => LongPlaced(params[1..], gprs, slot)
      case LongDouble => gprs >= 6 && slot % 2 == 1 && forall p | p in params[1..] :: p.Double?
  }

  /** Once the choice has fallen behind on the stack it is the convention only for doubles. */
  lemma {:induction false} BehindIff(params: seq<Param>, xmms: nat, slot: nat, later: nat, found: set<nat>)
    requires xmms <= 8 && slot < later
    ensures Chosen(params, 6, xmms, slot, found) == Convention(params, 6, xmms, later)
            <==> (forall p | p in params :: p.Double?) && Served(xmms, Count(params, Double), found)
  {
    if params != [] {
      var rest := params[1..];
      assert params == [params[0]] + rest;
      if params[0].Double? {
        if xmms < 8 && xmms in found {
          BehindIff(rest, xmms + 1, slot, later, found);
          SameHead(Xmm(xmms), Chosen(rest, 6, xmms + 1, slot, found), Convention(rest, 6, xmms + 1, later));
          OneMore(xmms, Count(rest, Double), found);
        } else {
          NoneLostIff(rest, 6, xmms, slot, found);
          ConventionLength(params, 6, xmms, later);
          NotServed(xmms, Count(params, Double), found);
        }
      } else {
        assert params[0] in params;
        assert Chosen(params, 6, xmms, slot, found)[0] == Stack(8 * slot);
        assert Convention(params, 6, xmms, later)[0] != Stack(8 * slot);
      }
    }
  }

  /** The choice is the convention exactly when all doubles are served and long doubles, which the
      loop takes for integers, are where that makes no difference. */
  lemma {:induction false} ChosenIff(params: seq<Param>, gprs: nat, xmms: nat, slot: nat, found: set<nat>)
    requires gprs <= 6 && xmms <= 8
    ensures Chosen(params, gprs, xmms, slot, found) == Convention(params, gprs, xmms, slot)
            <==> Served(xmms, Count(params, Double), found) && LongPlaced(params, gprs, slot)
  {
    if params != [] {
      var rest := params[1..];
      if params[0].Double? {
        if xmms < 8 && xmms in found {
          ChosenIff(rest, gprs, xmms + 1, slot, found);
          SameHead(Xmm(xmms), Chosen(rest, gprs, xmms + 1, slot, found), Convention(rest, gprs, xmms + 1, slot));
          OneMore(xmms, Count(rest, Double), found);
        } else {
          NoneLostIff(rest, gprs, xmms, slot, found);
          ConventionLength(params, gprs, xmms, slot);
          NotServed(xmms, Count(params, Double), found);
        }
      } else if params[0].LongDouble? {
        LongChosenIff(params, gprs, xmms, slot, found);
      } else if gprs < 6 {
        ChosenIff(rest, gprs + 1, xmms, slot, found);
        SameHead(Gpr(gprs), Chosen(rest, gprs + 1, xmms, slot, found), Convention(rest, gprs + 1, xmms, slot));
      } else {
        ChosenIff(rest, gprs, xmms, slot + 1, found);
        SameHead(Stack(8 * slot), Chosen(rest, gprs, xmms, slot + 1, found), Convention(rest, gprs, xmms, slot + 1));
      }
    }
  }

  lemma LongChosenIff(params: seq<Param>, gprs: nat, xmms: nat, slot: nat, found: set<nat>)
    requires params != [] && params[0].LongDouble? && gprs <= 6 && xmms <= 8
    ensures Chosen(params, gprs, xmms, slot, found) == Convention(params, gprs, xmms, slot)
            <==> Served(xmms, Count(params, Double), found) && LongPlaced(params, gprs, slot)
  {
    var rest := params[1..];
    var aligned := if slot % 2 == 1 then slot else slot + 1;
    assert Convention(params, gprs, xmms, slot)[0] == Stack(8 * aligned);
    if gprs < 6 {
      assert Chosen(params, gprs, xmms, slot, found)[0] == Gpr(gprs);
    } else if slot % 2 == 0 {
      assert Chosen(params, gprs, xmms, slot, found)[0] == Stack(8 * slot);
    } else {
      BehindIff(rest, xmms, slot + 1, slot + 2, found);
      SameHead(Stack(8 * slot), Chosen(rest, 6, xmms, slot + 1, found), Convention(rest, 6, xmms, slot + 2));
    }
  }

  /** A whole call: the format in RDI and then the parameters. */
  lemma ArgumentsIff(params: seq<Param>, found: set<nat>)
    requires params != [] && params[0].Integer?
    ensures [Gpr(0)] + Chosen(params[1..], 1, 0, 1, found) == Convention(params, 0, 0, 1)
            <==> && Count(params, Double) <= 8
                 && (forall n | 0 <= n < Count(params, Double) :: n in found)
                 && LongPlaced(params[1..], 1, 1)
  {
    ChosenIff(params[1..], 1, 0, 1, found);
    SameHead(Gpr(0), Chosen(params[1..], 1, 0, 1, found), Convention(params[1..], 1, 0, 1));
    if Count(params, Double) > 8 {
      assert 8 in found || 8 !in found;
      assert !Served(0, Count(params[1..], Double), found);
    }
  }

  /** So a long double among the first six arguments that are no doubles is read from a register
      instead of the stack. */
  lemma LongDoubleMisplaced(before: seq<Param>, after: seq<Param>, found: set<nat>)
    requires before != [] && before[0].Integer?
    requires |before| - Count(before, Double) < 6
    ensures var params := before + [LongDouble] + after;
            [Gpr(0)] + Chosen(params[1..], 1, 0, 1, found) != Convention(params, 0, 0, 1)
  {
    var params := before + [LongDouble] + after;
    ArgumentsIff(params, found);
    assert params[1..] == before[1..] + [LongDouble] + after;
    EarlyLong(before[1..], after, 1, 1);
  }

  lemma {:induction false} EarlyLong(before: seq<Param>, after: seq<Param>, gprs: nat, slot: nat)
    requires gprs + |before| - Count(before, Double) < 6
    ensures !LongPlaced(before + [LongDouble] + after, gprs, slot)
    decreases |before|
  {
    var params := before + [LongDouble] + after;
    if before != [] {
      assert params[1..] == before[1..] + [LongDouble] + after;
      CountAtMost(before[1..], Double);
      EarlyLong(before[1..], after, gprs, slot);
      if gprs + 1 + |before[1..]| - Count(before[1..], Double) < 6 {
        EarlyLong(before[1..], after, gprs + 1, slot);
      }
    }
  }

  // ---------- no place is used twice ----------

  /** The bytes an argument has on the stack. */
  function Bytes(p: Param): nat {
    if p.LongDouble? then 16 else 8
  }

  /** A location not used before. */
  predicate Fresh(at: Location, gprs: nat, xmms: nat, slot: nat) {
    match at
    case Gpr(n) => gprs <= n < 6
    case Xmm(n) => xmms <= n < 8
    case Stack(offset) => offset >= 8 * slot
  }

  /** Two locations share no register and no byte, the first holding an argument of the class. */
  predicate Apart(a: Location, p: Param, b: Location) {
    if a.Stack? && b.Stack? then a.offset + Bytes(p) <= b.offset else a != b
  }

  lemma {:induction false} ConventionFresh(params: seq<Param>, gprs: nat, xmms: nat, slot: nat)
    ensures forall at | at in Convention(params, gprs, xmms, slot) :: Fresh(at, gprs, xmms, slot)
    decreases |params|
  {
    if params != [] {
      ConventionFresh(params[1..], gprs, xmms, slot + 1);
      ConventionFresh(params[1..], gprs + 1, xmms, slot);
      ConventionFresh(params[1..], gprs, xmms + 1, slot);
      ConventionFresh(params[1..], gprs, xmms, (if slot % 2 == 1 then slot else slot + 1) + 2);
    }
  }

  /** The convention gives every argument a place of its own. */
  lemma {:induction false} ConventionApart(params: seq<Param>, gprs: nat, xmms: nat, slot: nat)
    ensures var places := Convention(params, gprs, xmms, slot);
            && |places| == |params|
            && forall i, j | 0 <= i < j < |params| :: Apart(places[i], params[i], places[j])
    decreases |params|
  {
    ConventionLength(params, gprs, xmms, slot);
    if params != [] {
      var rest := params[1..];
      var aligned := if slot % 2 == 1 then slot else slot + 1;
      var (g, x, s) :=
        match params[0]
        case Integer => if gprs < 6 then (gprs + 1, xmms, slot) else (gprs, xmms, slot + 1)
        case Double => if xmms < 8 then (gprs, xmms + 1, slot) else (gprs, xmms, slot + 1)
        case LongDouble => (gprs, xmms, aligned + 2);
      var places, later := Convention(params, gprs, xmms, slot), Convention(rest, g, x, s);
      assert places == [places[0]] + later;
      ConventionApart(rest, g, x, s);
      ConventionFresh(rest, g, x, s);
      forall i, j | 0 <= i < j < |params|
        ensures Apart(places[i], params[i], places[j])
      {
        assert places[j] == later[j - 1] && Fresh(places[j], g, x, s);
        if i > 0 {
          assert Apart(later[i - 1], rest[i - 1], later[j - 1]);
        }
      }
    }
  }

  predicate Distinct(places: seq<Location>) {
    forall i, j | 0 <= i < j < |places| :: places[i] != places[j]
  }

  lemma {:induction false} ChosenFresh(params: seq<Param>, gprs: nat, xmms: nat, slot: nat, found: set<nat>)
    ensures forall at | at in Chosen(params, gprs, xmms, slot, found) :: Fresh(at, gprs, xmms, slot)
    decreases |params|
  {
    if params != [] {
      ChosenFresh(params[1..], gprs, xmms, slot, found);
      ChosenFresh(params[1..], gprs, xmms, slot + 1, found);
      ChosenFresh(params[1..], gprs + 1, xmms, slot, found);
      ChosenFresh(params[1..], gprs, xmms + 1, slot, found);
    }
  }

  /** Nor does the pass read two arguments from one place. */
  lemma {:induction false} ChosenDistinct(params: seq<Param>, gprs: nat, xmms: nat, slot: nat, found: set<nat>)
    ensures Distinct(Chosen(params, gprs, xmms, slot, found))
    decreases |params|
  {
    if params != [] {
      var rest := params[1..];
      if params[0].Double? {
        if xmms < 8 && xmms in found {
          ChosenDistinct(rest, gprs, xmms + 1, slot, found);
          ChosenFresh(rest, gprs, xmms + 1, slot, found);
          NewFirst(Xmm(xmms), Chosen(rest, gprs, xmms + 1, slot, found));
        } else {
          ChosenDistinct(rest, gprs, xmms, slot, found);
        }
      } else if gprs < 6 {
        ChosenDistinct(rest, gprs + 1, xmms, slot, found);
        ChosenFresh(rest, gprs + 1, xmms, slot, found);
        NewFirst(Gpr(gprs), Chosen(rest, gprs + 1, xmms, slot, found));
      } else {
        ChosenDistinct(rest, gprs, xmms, slot + 1, found);
        ChosenFresh(rest, gprs, xmms, slot + 1, found);
        NewFirst(Stack(8 * slot), Chosen(rest, gprs, xmms, slot + 1, found));
      }
    }
  }

  lemma NewFirst(first: Location, rest: seq<Location>)
    requires first !in rest && Distinct(rest)
    ensures Distinct([first] + rest)
  {
    var all := [first] + rest;
    forall i, j | 0 <= i < j < |all|
      ensures all[i] != all[j]
    {
      assert all[j] == rest[j - 1] && all[j] in rest;
      if i > 0 { assert all[i] == rest[i - 1]; }
    }
  }
}
