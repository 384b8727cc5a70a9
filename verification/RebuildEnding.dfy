/** When the recursion of the rebuild ends, for arrays that may repeat labels. The array bounds are
    left aside here: an overrun stops the modelled calls early. */
module RebuildEnding {
  import opened Pigeonhole
  import opened Traversals
  import opened RebuildSpec

  // ----- what one call hands down

  ghost predicate IsRoot(ins: seq<int>, lvl: seq<int>) { lvl != [] && lvl[0] in ins }

  ghost function Left(ins: seq<int>, lvl: seq<int>): seq<int>
    requires IsRoot(ins, lvl)
  {
    Fill(lvl[1..], ins[..IndexOf(ins, lvl[0])])
  }

  ghost function Right(ins: seq<int>, lvl: seq<int>): seq<int>
    requires IsRoot(ins, lvl)
  {
    Fill(lvl[1..], ins[IndexOf(ins, lvl[0]) + 1..])
  }

  /** The calls made for lvl are nested less than `depth` deep. */
  ghost predicate Ends(ins: seq<int>, lvl: seq<int>, depth: nat)
    decreases depth
  {
    depth > 0 && (IsRoot(ins, lvl) ==> Ends(ins, Left(ins, lvl), depth - 1) && Ends(ins, Right(ins, lvl), depth - 1))
  }

  ghost predicate Terminates(ins: seq<int>, lvl: seq<int>) { exists depth: nat :: Ends(ins, lvl, depth) }

  lemma EndsStep(ins: seq<int>, lvl: seq<int>, depth: nat)
    requires IsRoot(ins, lvl) && depth > 0
    ensures Ends(ins, lvl, depth) <==> Ends(ins, Left(ins, lvl), depth - 1) && Ends(ins, Right(ins, lvl), depth - 1)
  {
  }

  lemma {:induction false} EndsMore(ins: seq<int>, lvl: seq<int>, d: nat, e: nat)
    requires d <= e && Ends(ins, lvl, d)
    ensures Ends(ins, lvl, e)
    decreases d
  {
    if !IsRoot(ins, lvl) {
    } else {
      EndsMore(ins, Left(ins, lvl), d - 1, e - 1);
      EndsMore(ins, Right(ins, lvl), d - 1, e - 1);
    }
  }

  lemma BothEnd(ins: seq<int>, lvl: seq<int>)
    requires IsRoot(ins, lvl)
    ensures Terminates(ins, lvl) <==> Terminates(ins, Left(ins, lvl)) && Terminates(ins, Right(ins, lvl))
  {
    hide Left, Right;
    if Terminates(ins, lvl) {
      var d: nat :| Ends(ins, lvl, d);
      assert Ends(ins, Left(ins, lvl), d - 1) && Ends(ins, Right(ins, lvl), d - 1);
    }
    if Terminates(ins, Left(ins, lvl)) && Terminates(ins, Right(ins, lvl)) {
      var d: nat :| Ends(ins, Left(ins, lvl), d);
      var e: nat :| Ends(ins, Right(ins, lvl), e);
      EndsMore(ins, Left(ins, lvl), d, d + e);
      EndsMore(ins, Right(ins, lvl), e, d + e);
      EndsStep(ins, lvl, d + e + 1);
    }
  }

  // ----- counting labels

  lemma {:induction false} TimesIn(x: int, s: seq<int>)
    ensures Times(x, s) > 0 <==> x in s
  {
    if s == [] {
    } else {
      assert s == s[..|s| - 1] + [s[|s| - 1]];
      TimesIn(x, s[..|s| - 1]);
    }
  }

  lemma {:induction false} TimesCopies(y: int, x: int, n: nat)
    ensures Times(y, Copies(x, n)) == if x == y then n else 0
  {
    if n == 0 {
    } else {
      TimesCopies(y, x, n - 1);
      assert Copies(x, n)[..n - 1] == Copies(x, n - 1);
    }
  }

  /** A fill multiplies the occurrences of a label by its places. */
  lemma {:induction false} TimesFill(y: int, s: seq<int>, p: seq<int>)
    ensures Times(y, Fill(s, p)) == Times(y, s) * Times(y, p)
  {
    if s == [] {
    } else {
      var t, x := s[..|s| - 1], s[|s| - 1];
      TimesFill(y, t, p);
      TimesConcat(y, Fill(t, p), Copies(x, Times(x, p)));
      TimesCopies(y, x, Times(x, p));
      MulStep(Times(y, t), if x == y then 1 else 0, Times(y, p));
    }
  }

  lemma MulStep(a: nat, b: nat, n: nat)
    ensures (a + b) * n == a * n + b * n
  {
  }

  lemma TimesHead(y: int, s: seq<int>)
    requires s != []
    ensures Times(y, s) == (if s[0] == y then 1 else 0) + Times(y, s[1..])
  {
    assert s == [s[0]] + s[1..];
    TimesTwo(y, s[0], 0);
    TimesConcat(y, [s[0]], s[1..]);
  }

  lemma TimesAround(y: int, s: seq<int>, i: nat)
    requires i < |s|
    ensures Times(y, s) == Times(y, s[..i]) + (if s[i] == y then 1 else 0) + Times(y, s[i + 1..])
  {
    assert s == s[..i] + s[i..] && s[i..][1..] == s[i + 1..];
    TimesConcat(y, s[..i], s[i..]);
    TimesHead(y, s[i..]);
  }

  /** The occurrences of y that a call hands down: those after the head, once for each place of y
      before or after the first place of the head. */
  lemma HandedDown(ins: seq<int>, lvl: seq<int>, y: int)
    requires IsRoot(ins, lvl)
    ensures var i := IndexOf(ins, lvl[0]);
            && i < |ins| && ins[i] == lvl[0] && Times(lvl[0], ins[..i]) == 0
            && Times(y, ins) == Times(y, ins[..i]) + (if y == lvl[0] then 1 else 0) + Times(y, ins[i + 1..])
            && Times(y, Left(ins, lvl)) == Times(y, lvl[1..]) * Times(y, ins[..i])
            && Times(y, Right(ins, lvl)) == Times(y, lvl[1..]) * Times(y, ins[i + 1..])
            && Times(y, lvl) == (if y == lvl[0] then 1 else 0) + Times(y, lvl[1..])
  {
    hide Fill, Times;
    var i := IndexOf(ins, lvl[0]);
    TimesIn(lvl[0], ins[..i]);
    TimesAround(y, ins, i);
    TimesFill(y, lvl[1..], ins[..i]);
    TimesFill(y, lvl[1..], ins[i + 1..]);
    TimesHead(y, lvl);
  }

  lemma HandedInside(ins: seq<int>, lvl: seq<int>)
    requires IsRoot(ins, lvl)
    ensures Inside(Left(ins, lvl), ins) && Inside(Right(ins, lvl), ins)
  {
    hide Left, Right;
    forall y | y in Left(ins, lvl) || y in Right(ins, lvl) ensures y in ins {
      HandedDown(ins, lvl, y);
      TimesIn(y, Left(ins, lvl));
      TimesIn(y, Right(ins, lvl));
      TimesIn(y, ins);
    }
  }

  // ----- a label with three places

  /** Two occurrences of a label with three places call for two more, for ever. */
  lemma {:induction false} TwiceForEver(ins: seq<int>, lvl: seq<int>, y: int, depth: nat)
    requires Inside(lvl, ins) && Times(y, ins) >= 3 && Times(y, lvl) >= 2
    ensures !Ends(ins, lvl, depth)
    decreases depth
  {
    hide Left, Right, Fill, Times;
    TimesIn(y, lvl);
    if depth == 0 {
    } else {
      var x := lvl[0];
      assert x in lvl;
      HandedDown(ins, lvl, y);
      HandedInside(ins, lvl);
      var i := IndexOf(ins, lvl[0]);
      if Times(y, ins[i + 1..]) >= 2 {
        MulAtLeast(Times(y, lvl[1..]), Times(y, ins[i + 1..]));
        TwiceForEver(ins, Right(ins, lvl), y, depth - 1);
      } else {
        MulAtLeast(Times(y, lvl[1..]), Times(y, ins[..i]));
        TwiceForEver(ins, Left(ins, lvl), y, depth - 1);
      }
    }
  }

  lemma MulAtLeast(a: nat, n: nat)
    requires a >= 1 && n >= 2
    ensures a * n >= 2
  {
  }

  /** One occurrence behind the head is enough. */
  lemma ThreePlaces(ins: seq<int>, lvl: seq<int>, y: int)
    requires IsRoot(ins, lvl) && Times(y, ins) >= 3 && Times(y, lvl[1..]) >= 1
    ensures !Terminates(ins, lvl)
  {
    hide Left, Right, Fill, Times;
    HandedDown(ins, lvl, y);
    HandedInside(ins, lvl);
    BothEnd(ins, lvl);
    var i := IndexOf(ins, lvl[0]);
    if Times(y, ins[i + 1..]) >= 2 {
      MulAtLeast(Times(y, lvl[1..]), Times(y, ins[i + 1..]));
      forall d: nat ensures !Ends(ins, Right(ins, lvl), d) { TwiceForEver(ins, Right(ins, lvl), y, d); }
    } else {
      MulAtLeast(Times(y, lvl[1..]), Times(y, ins[..i]));
      forall d: nat ensures !Ends(ins, Left(ins, lvl), d) { TwiceForEver(ins, Left(ins, lvl), y, d); }
    }
  }

  // ----- labels with at most two places

  /** The labels that may still be handed down are in S, and each has at most two places. */
  ghost predicate TwoPlaces(ins: seq<int>, lvl: seq<int>, S: set<int>) {
    forall y | y in lvl :: y in S && y in ins && Times(y, ins) <= 2
  }

  /** The label at p occurs less often in a than in b, and those before p no more often. */
  ghost predicate Less(ins: seq<int>, a: seq<int>, b: seq<int>, p: nat) {
    && p < |ins| && Times(ins[p], a) < Times(ins[p], b)
    && forall q | 0 <= q < p :: Times(ins[q], a) <= Times(ins[q], b)
  }

  /** Everything that is smaller at a place below j ends. */
  ghost predicate SmallerEnd(ins: seq<int>, lvl: seq<int>, S: set<int>, j: nat) {
    forall l, p: nat {:trigger Less(ins, l, lvl, p)} ::
      p < j && Less(ins, l, lvl, p) && TwoPlaces(ins, l, S) ==> Terminates(ins, l)
  }

  /** To the right of the head its label is used up by one, and no label that comes earlier in the
      in-order sequence is multiplied. */
  lemma RightLess(ins: seq<int>, lvl: seq<int>, S: set<int>)
    requires TwoPlaces(ins, lvl, S) && lvl != []
    ensures IsRoot(ins, lvl) && Less(ins, Right(ins, lvl), lvl, IndexOf(ins, lvl[0]))
    ensures TwoPlaces(ins, Right(ins, lvl), S)
  {
    hide Left, Right, Fill, Times;
    var i := IndexOf(ins, lvl[0]);
    HandedDown(ins, lvl, lvl[0]);
    MulAtMost(Times(lvl[0], lvl[1..]), Times(lvl[0], ins[i + 1..]));
    forall q | 0 <= q < i ensures Times(ins[q], Right(ins, lvl)) <= Times(ins[q], lvl) {
      HandedDown(ins, lvl, ins[q]);
      TimesIn(ins[q], ins[..i]);
      assert ins[q] == ins[..i][q];
      if ins[q] in lvl {
        MulAtMost(Times(ins[q], lvl[1..]), Times(ins[q], ins[i + 1..]));
      } else {
        TimesIn(ins[q], lvl);
      }
    }
    RightTwoPlaces(ins, lvl, S);
  }

  lemma MulAtMost(a: nat, n: nat)
    requires n <= 1
    ensures a * n <= a
  {
  }

  lemma RightTwoPlaces(ins: seq<int>, lvl: seq<int>, S: set<int>)
    requires TwoPlaces(ins, lvl, S) && IsRoot(ins, lvl)
    ensures TwoPlaces(ins, Right(ins, lvl), S)
  {
    hide Left, Right, Fill, Times;
    forall y | y in Right(ins, lvl) ensures y in lvl {
      HandedDown(ins, lvl, y);
      TimesIn(y, Right(ins, lvl));
      TimesIn(y, lvl);
    }
  }

  /** To the left of the head its label is gone. */
  lemma LeftTwoPlaces(ins: seq<int>, lvl: seq<int>, S: set<int>)
    requires TwoPlaces(ins, lvl, S) && IsRoot(ins, lvl)
    ensures TwoPlaces(ins, Left(ins, lvl), S - {lvl[0]})
  {
    hide Left, Right, Fill, Times;
    forall y | y in Left(ins, lvl) ensures y in lvl && y != lvl[0] {
      HandedDown(ins, lvl, y);
      TimesIn(y, Left(ins, lvl));
      TimesIn(y, lvl);
    }
  }

  /** Labels with at most two places: by induction on the labels left and, for these, on how often
      they occur, the earliest label first. */
  lemma {:induction false} TwoPlacesEnd(ins: seq<int>, lvl: seq<int>, S: set<int>, j: nat)
    requires TwoPlaces(ins, lvl, S) && j <= |ins| && SmallerEnd(ins, lvl, S, j)
    ensures Terminates(ins, lvl)
    decreases |S|, |ins| - j, if j < |ins| then Times(ins[j], lvl) else 0
  {
    hide Left, Right, Fill, Times;
    if lvl == [] {
      assert Ends(ins, lvl, 1);
    } else if j == |ins| {
      RightLess(ins, lvl, S);
      LeftTwoPlaces(ins, lvl, S);
      TwoPlacesEnd(ins, Left(ins, lvl), S - {lvl[0]}, 0);
      BothEnd(ins, lvl);
    } else {
      forall l, p: nat | p < j + 1 && Less(ins, l, lvl, p) && TwoPlaces(ins, l, S) ensures Terminates(ins, l) {
        if p == j {
          SmallerThanSmaller(ins, l, lvl, S, j);
          TwoPlacesEnd(ins, l, S, j);
        }
      }
      TwoPlacesEnd(ins, lvl, S, j + 1);
    }
  }

  lemma SmallerThanSmaller(ins: seq<int>, l: seq<int>, lvl: seq<int>, S: set<int>, j: nat)
    requires Less(ins, l, lvl, j) && SmallerEnd(ins, lvl, S, j)
    ensures SmallerEnd(ins, l, S, j)
  {
    hide Times, Terminates, TwoPlaces;
    forall m, p: nat | p < j && Less(ins, m, l, p) && TwoPlaces(ins, m, S) ensures Terminates(ins, m) {
      assert Less(ins, m, lvl, p);
    }
  }

  // ----- the exact condition

  /** A label that the in-order sequence holds three times or more is the first of the level order and
      occurs nowhere else in it. */
  ghost predicate TripledRootOnly(ins: seq<int>, lvl: seq<int>)
    requires lvl != []
  {
    forall y | y in ins && Times(y, ins) >= 3 :: y == lvl[0] && Times(y, lvl) == 1
  }

  /** For input that passes the validation and whose root is found, the recursion ends if and only if
      no label but the root has three places, and a root with three places occurs once. */
  lemma EndsExactly(ins: seq<int>, lvl: seq<int>)
    requires Inside(ins, lvl) && IsRoot(ins, lvl)
    ensures Terminates(ins, lvl) <==> TripledRootOnly(ins, lvl)
  {
    hide Left, Right, Fill, Times, Terminates;
    if !TripledRootOnly(ins, lvl) {
      var y :| y in ins && Times(y, ins) >= 3 && !(y == lvl[0] && Times(y, lvl) == 1);
      TimesIn(y, lvl);
      TimesHead(y, lvl);
      ThreePlaces(ins, lvl, y);
    } else {
      BothEnd(ins, lvl);
      var S := set y | y in ins;
      HandedInside(ins, lvl);
      forall y | y in Left(ins, lvl) || y in Right(ins, lvl) ensures Times(y, ins) <= 2 {
        HandedDown(ins, lvl, y);
        TimesIn(y, Left(ins, lvl));
        TimesIn(y, Right(ins, lvl));
      }
      TwoPlacesEnd(ins, Left(ins, lvl), S, 0);
      TwoPlacesEnd(ins, Right(ins, lvl), S, 0);
    }
  }

  // ----- what that means for the rebuild

  lemma {:induction false} InsideOutcome(ins: seq<int>, lvl: seq<int>, depth: nat)
    requires Inside(lvl, ins)
    ensures var r := Rebuild(ins, lvl, depth);
            r == Failed(Overrun) || if Ends(ins, lvl, depth) then r.Built? else r == Failed(StackOut)
    decreases depth
  {
    hide Fill, Times;
    if depth == 0 || lvl == [] {
    } else {
      var x := lvl[0];
      assert x in lvl;
      HandedInside(ins, lvl);
      InsideOutcome(ins, Left(ins, lvl), depth - 1);
      InsideOutcome(ins, Right(ins, lvl), depth - 1);
    }
  }

  /** The calls below the first always find their root. */
  lemma RootedOutcome(ins: seq<int>, lvl: seq<int>, depth: nat)
    requires IsRoot(ins, lvl)
    ensures var r := Rebuild(ins, lvl, depth);
            r == Failed(Overrun) || if Ends(ins, lvl, depth) then r.Built? else r == Failed(StackOut)
  {
    hide Fill, Times;
    if depth > 0 {
      HandedInside(ins, lvl);
      InsideOutcome(ins, Left(ins, lvl), depth - 1);
      InsideOutcome(ins, Right(ins, lvl), depth - 1);
    }
  }

  /** The root is missing exactly if the first level-order element is not in the in-order sequence. */
  lemma NoRootExactly(ins: seq<int>, lvl: seq<int>, depth: nat)
    requires depth > 0
    ensures Rebuild(ins, lvl, depth) == Failed(NoRoot) <==> lvl != [] && lvl[0] !in ins
  {
    if IsRoot(ins, lvl) {
      RootedOutcome(ins, lvl, depth);
    }
  }

  /** Any stack of depth d or more is enough for a tree or an overrun. */
  ghost predicate ReturnsFrom(ins: seq<int>, lvl: seq<int>, d: nat) {
    forall e: nat | e >= d :: Rebuild(ins, lvl, e).Built? || Rebuild(ins, lvl, e) == Failed(Overrun)
  }

  /** On the modelled arrays, too: with the condition, enough stack gives a tree or an overrun; without
      it no stack is enough, and the calls go on until an array overruns or the stack is used up. */
  lemma ReturnsExactly(ins: seq<int>, lvl: seq<int>)
    requires Inside(ins, lvl) && IsRoot(ins, lvl)
    ensures TripledRootOnly(ins, lvl) ==> exists d: nat :: ReturnsFrom(ins, lvl, d)
    ensures !TripledRootOnly(ins, lvl) ==>
              forall e: nat :: Rebuild(ins, lvl, e) == Failed(StackOut) || Rebuild(ins, lvl, e) == Failed(Overrun)
  {
    hide Rebuild, Ends, Times;
    EndsExactly(ins, lvl);
    forall e: nat
      ensures Rebuild(ins, lvl, e) == Failed(Overrun)
              || if Ends(ins, lvl, e) then Rebuild(ins, lvl, e).Built? else Rebuild(ins, lvl, e) == Failed(StackOut)
    {
      RootedOutcome(ins, lvl, e);
    }
    if TripledRootOnly(ins, lvl) {
      var d: nat :| Ends(ins, lvl, d);
      forall e: nat | e >= d ensures Ends(ins, lvl, e) { EndsMore(ins, lvl, d, e); }
      assert ReturnsFrom(ins, lvl, d);
    }
  }
}
