/**
 The start-up check of the move list, `CheckIfArgsCorrect` in
 Intra/Program.cs. It rejects a null list, fewer than three moves and an
 even number of moves; then it sorts the moves and walks the sorted list
 once, rejecting a null or white-space-only entry and an entry equal,
 ignoring case, to the one before it.

 The culture-aware `OrderBy` is modelled by a sort on the ASCII-lowered
 text (null first), and case-insensitive equality by equality of the
 ASCII-lowered text. The one property of the order the check relies on,
 that entries equal ignoring case end up next to each other, is proved here
 for the model's order.
 */
module ArgsCheck {
  import opened Wrappers
  import opened Ascii

  /** `char.IsWhiteSpace`: the Unicode white-space characters, by code
      point (U+0009..U+000D, U+0020, U+0085, U+00A0, U+1680,
      U+2000..U+200A, U+2028, U+2029, U+202F, U+205F, U+3000). */
  predicate IsWhiteSpace(ch: char)
  {
    var c := ch as int;
    || 0x09 <= c <= 0x0D || c == 0x20 || c == 0x85 || c == 0xA0 || c == 0x1680
    || 0x2000 <= c <= 0x200A || c == 0x2028 || c == 0x2029 || c == 0x202F
    || c == 0x205F || c == 0x3000
  }

  /** `string.IsNullOrWhiteSpace`: null, empty, or white space only. */
  predicate IsNullOrWhiteSpace(arg: Option<string>)
  {
    match arg
    case None => true
    case Some(s) => forall i :: 0 <= i < |s| ==> IsWhiteSpace(s[i])
  }

  /** Two entries, neither null, that are equal ignoring case. */
  predicate SameIgnoringCase(x: Option<string>, y: Option<string>)
  {
    x.Some? && y.Some? && ToLowerAscii(x.value) == ToLowerAscii(y.value)
  }

  /** What a valid move list is: present, an odd number of at least three
      entries, none blank, no two equal ignoring case. */
  predicate ArgsValid(args: Option<seq<Option<string>>>)
  {
    && args.Some?
    && |args.value| >= 3
    && |args.value| % 2 == 1
    && (forall i :: 0 <= i < |args.value| ==> !IsNullOrWhiteSpace(args.value[i]))
    && (forall i, j :: 0 <= i < j < |args.value| ==> !SameIgnoringCase(args.value[i], args.value[j]))
  }

  // ---- The order used for sorting ----

  /** Lexicographic order on character codes. */
  predicate LexLeq(a: string, b: string)
  {
    a == [] || (b != [] && (a[0] < b[0] || (a[0] == b[0] && LexLeq(a[1..], b[1..]))))
  }

  lemma {:induction false} LexTotal(a: string, b: string)
    ensures LexLeq(a, b) || LexLeq(b, a)
  {
    if a != [] && b != [] && a[0] == b[0] {
      LexTotal(a[1..], b[1..]);
    }
  }

  lemma {:induction false} LexReflexive(a: string)
    ensures LexLeq(a, a)
  {
    if a != [] {
      LexReflexive(a[1..]);
    }
  }

  lemma {:induction false} LexTransitive(a: string, b: string, c: string)
    requires LexLeq(a, b) && LexLeq(b, c)
    ensures LexLeq(a, c)
  {
    if a != [] && a[0] == b[0] && b[0] == c[0] {
      LexTransitive(a[1..], b[1..], c[1..]);
    }
  }

  lemma {:induction false} LexAntisymmetric(a: string, b: string)
    requires LexLeq(a, b) && LexLeq(b, a)
    ensures a == b
  {
    if a != [] && b != [] {
      LexAntisymmetric(a[1..], b[1..]);
      assert a == [a[0]] + a[1..] && b == [b[0]] + b[1..];
    }
  }

  /** The sort order: null first, then by the lowered text. */
  predicate Leq(x: Option<string>, y: Option<string>)
  {
    x.None? || (y.Some? && LexLeq(ToLowerAscii(x.value), ToLowerAscii(y.value)))
  }

  predicate Sorted(s: seq<Option<string>>)
  {
    forall i :: 0 < i < |s| ==> Leq(s[i - 1], s[i])
  }

  /** Insert `x` into a sorted list. */
  function Insert(x: Option<string>, s: seq<Option<string>>): (r: seq<Option<string>>)
    requires Sorted(s)
    ensures multiset(r) == multiset(s) + multiset{x}
    ensures Sorted(r)
    ensures r[0] == x || (s != [] && r[0] == s[0])
  {
    if s == [] then [x]
    else if Leq(x, s[0]) then [x] + s
    else
      var rest := Insert(x, s[1..]);
      assert Leq(s[0], rest[0]) by {
        if x.Some? && s[0].Some? {
          LexTotal(ToLowerAscii(x.value), ToLowerAscii(s[0].value));
        }
      }
      assert s == [s[0]] + s[1..];
      [s[0]] + rest
  }

  /** The model of `args.OrderBy(a => a)`: a sorted permutation. */
  function SortArgs(s: seq<Option<string>>): (r: seq<Option<string>>)
    ensures multiset(r) == multiset(s)
    ensures Sorted(r)
  {
    if s == [] then []
    else
      assert s == [s[0]] + s[1..];
      Insert(s[0], SortArgs(s[1..]))
  }

  // ---- Why checking neighbours is enough ----

  lemma {:induction false} SortedChain(s: seq<Option<string>>, i: nat, j: nat)
    requires Sorted(s) && i <= j < |s|
    ensures Leq(s[i], s[j])
  {
    if i == j {
      if s[i].Some? {
        LexReflexive(ToLowerAscii(s[i].value));
      }
    } else {
      SortedChain(s, i, j - 1);
      if s[i].Some? {
        LexTransitive(ToLowerAscii(s[i].value), ToLowerAscii(s[j - 1].value), ToLowerAscii(s[j].value));
      }
    }
  }

  /** In a sorted list without nulls, entries equal ignoring case are next
      to each other: if no two neighbours are, no two entries are. */
  lemma NeighboursSuffice(s: seq<Option<string>>)
    requires Sorted(s)
    requires forall k :: 0 <= k < |s| ==> s[k].Some?
    requires forall k :: 0 < k < |s| ==> !SameIgnoringCase(s[k - 1], s[k])
    ensures forall i, j :: 0 <= i < j < |s| ==> !SameIgnoringCase(s[i], s[j])
  {
    forall i, j | 0 <= i < j < |s|
      ensures !SameIgnoringCase(s[i], s[j])
    {
      if SameIgnoringCase(s[i], s[j]) && i + 1 < j {
        SortedChain(s, i + 1, j);
        var a, b := ToLowerAscii(s[i].value), ToLowerAscii(s[i + 1].value);
        LexAntisymmetric(a, b);
      }
    }
  }

  /** Two positions of `b` hold values found at two positions of `a`, when
      `a` and `b` are permutations of each other. */
  lemma {:induction false} TwoPositions(a: seq<Option<string>>, x: Option<string>, y: Option<string>)
    requires multiset{x, y} <= multiset(a)
    ensures exists p, q :: 0 <= p < q < |a| && ((a[p] == x && a[q] == y) || (a[p] == y && a[q] == x))
  {
    assert a == [a[0]] + a[1..];
    if a[0] == x {
      assert y in multiset(a[1..]);
      var q :| 0 <= q < |a[1..]| && a[1..][q] == y;
      assert a[0] == x && a[q + 1] == y;
    } else if a[0] == y {
      assert x in multiset(a[1..]);
      var q :| 0 <= q < |a[1..]| && a[1..][q] == x;
      assert a[0] == y && a[q + 1] == x;
    } else {
      TwoPositions(a[1..], x, y);
      var p, q :| 0 <= p < q < |a[1..]| && ((a[1..][p] == x && a[1..][q] == y) || (a[1..][p] == y && a[1..][q] == x));
      assert a[p + 1] == a[1..][p] && a[q + 1] == a[1..][q];
    }
  }

  lemma PairInMultiset(b: seq<Option<string>>, i: nat, j: nat)
    requires i < j < |b|
    ensures multiset{b[i], b[j]} <= multiset(b)
  {
    assert b == b[..i] + [b[i]] + b[i + 1..j] + [b[j]] + b[j + 1..];
  }

  /** A pair equal ignoring case at two positions of one permutation sits at
      two positions of the other. */
  lemma TransferPair(a: seq<Option<string>>, b: seq<Option<string>>, i: nat, j: nat)
    requires multiset(a) == multiset(b)
    requires i < j < |b| && SameIgnoringCase(b[i], b[j])
    ensures exists p, q :: 0 <= p < q < |a| && SameIgnoringCase(a[p], a[q])
  {
    PairInMultiset(b, i, j);
    TwoPositions(a, b[i], b[j]);
  }

  /** A blank entry met in the sorted walk is an entry of the list. */
  lemma BlankFound(list: seq<Option<string>>, sorted: seq<Option<string>>, i: nat)
    requires multiset(sorted) == multiset(list)
    requires i < |sorted| && IsNullOrWhiteSpace(sorted[i])
    ensures !ArgsValid(Some(list))
  {
    assert sorted[i] in multiset(list);
  }

  /** Neighbours equal ignoring case in the sorted walk are two entries of
      the list equal ignoring case. */
  lemma PairFound(list: seq<Option<string>>, sorted: seq<Option<string>>, i: nat)
    requires multiset(sorted) == multiset(list)
    requires 0 < i < |sorted| && SameIgnoringCase(sorted[i - 1], sorted[i])
    ensures !ArgsValid(Some(list))
  {
    TransferPair(list, sorted, i - 1, i);
  }

  /** A walk that meets no blank entry and no neighbours equal ignoring
      case proves the list valid (given a valid count). */
  lemma CleanWalk(list: seq<Option<string>>, sorted: seq<Option<string>>)
    requires |list| >= 3 && |list| % 2 == 1
    requires multiset(sorted) == multiset(list) && Sorted(sorted)
    requires forall k :: 0 <= k < |sorted| ==> !IsNullOrWhiteSpace(sorted[k])
    requires forall k :: 0 < k < |sorted| ==> !SameIgnoringCase(sorted[k - 1], sorted[k])
    ensures ArgsValid(Some(list))
  {
    forall k | 0 <= k < |list|
      ensures !IsNullOrWhiteSpace(list[k])
    {
      assert list[k] in multiset(sorted);
    }
    forall p, q | 0 <= p < q < |list|
      ensures !SameIgnoringCase(list[p], list[q])
    {
      if SameIgnoringCase(list[p], list[q]) {
        TransferPair(sorted, list, p, q);
        NeighboursSuffice(sorted);
      }
    }
  }

  /** `CheckIfArgsCorrect`: count checks, then one pass over the sorted
      entries keeping the previous one. The result is exactly `ArgsValid`. */
  method CheckIfArgsCorrect(args: Option<seq<Option<string>>>) returns (ok: bool)
    ensures ok == ArgsValid(args)
  {
    if args.None? {
      return false;
    }
    var list := args.value;
    if |list| < 3 || |list| % 2 == 0 {
      return false;
    }

    var sorted := SortArgs(list);
    var previous: Option<string> := None;
    for i := 0 to |sorted|
      invariant previous == if i == 0 then None else sorted[i - 1]
      invariant forall k :: 0 <= k < i ==> !IsNullOrWhiteSpace(sorted[k])
      invariant forall k :: 0 < k < i ==> !SameIgnoringCase(sorted[k - 1], sorted[k])
    {
      var arg := sorted[i];
      if IsNullOrWhiteSpace(arg) || (previous.Some? && SameIgnoringCase(arg, previous)) {
        if IsNullOrWhiteSpace(arg) {
          BlankFound(list, sorted, i);
        } else {
          PairFound(list, sorted, i);
        }
        return false;
      }
      previous := arg;
    }

    CleanWalk(list, sorted);
    ok := true;
  }
}
