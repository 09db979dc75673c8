/** Positions in an ordered tree (the child indices from the root down) and
    the shortlex order on them: shorter first, equal lengths
    lexicographically. A breadth-first walk that reads each directory's
    entries in order visits positions in exactly this order. */
module ShortLex {

  type Pos = seq<nat>

  /** The position of the parent directory. */
  function Parent(p: Pos): Pos
    requires p != []
  {
    p[..|p| - 1]
  }

  /** The index of p among its siblings. */
  function Index(p: Pos): nat
    requires p != []
  {
    p[|p| - 1]
  }

  /** a is a proper prefix of b: b lies strictly below a in the tree. */
  predicate StrictPrefix(a: Pos, b: Pos) {
    |a| < |b| && b[..|a|] == a
  }

  /** Lexicographic order on positions of the same length. */
  predicate LexLess(a: Pos, b: Pos)
    requires |a| == |b|
  {
    |a| > 0 && (a[0] < b[0] || (a[0] == b[0] && LexLess(a[1..], b[1..])))
  }

  predicate Less(a: Pos, b: Pos) {
    |a| < |b| || (|a| == |b| && LexLess(a, b))
  }

  lemma {:induction false} LexIrreflexive(a: Pos)
    ensures !LexLess(a, a)
  {
    if |a| > 0 {
      LexIrreflexive(a[1..]);
    }
  }

  lemma {:induction false} LexTransitive(a: Pos, b: Pos, c: Pos)
    requires |a| == |b| == |c|
    requires LexLess(a, b) && LexLess(b, c)
    ensures LexLess(a, c)
  {
    if a[0] == b[0] && b[0] == c[0] {
      LexTransitive(a[1..], b[1..], c[1..]);
    }
  }

  /** Children of lexicographically ordered parents are ordered the same way. */
  lemma {:induction false} LexAppend(a: Pos, b: Pos, i: nat, j: nat)
    requires |a| == |b| && LexLess(a, b)
    ensures LexLess(a + [i], b + [j])
  {
    assert (a + [i])[1..] == a[1..] + [i];
    assert (b + [j])[1..] == b[1..] + [j];
    if a[0] == b[0] {
      LexAppend(a[1..], b[1..], i, j);
    }
  }

  /** Siblings are ordered by their index. */
  lemma {:induction false} LexSiblings(p: Pos, i: nat, j: nat)
    requires i < j
    ensures LexLess(p + [i], p + [j])
  {
    if p != [] {
      assert (p + [i])[1..] == p[1..] + [i];
      assert (p + [j])[1..] == p[1..] + [j];
      LexSiblings(p[1..], i, j);
    }
  }

  lemma {:induction false} LexAsymmetric(a: Pos, b: Pos)
    requires |a| == |b| && LexLess(a, b)
    ensures !LexLess(b, a)
  {
    if a[0] == b[0] {
      LexAsymmetric(a[1..], b[1..]);
    }
  }

  /** The shortlex order is a strict order. */
  lemma LessIrreflexive(a: Pos)
    ensures !Less(a, a)
  {
    LexIrreflexive(a);
  }

  lemma LessAsymmetric(a: Pos, b: Pos)
    requires Less(a, b)
    ensures !Less(b, a)
  {
    if |a| == |b| {
      LexAsymmetric(a, b);
    }
  }

  lemma LessTransitive(a: Pos, b: Pos, c: Pos)
    requires Less(a, b) && Less(b, c)
    ensures Less(a, c)
  {
    if |a| == |b| == |c| {
      LexTransitive(a, b, c);
    }
  }

  /** The children of an earlier directory come before those of a later one. */
  lemma LessChildren(a: Pos, b: Pos, i: nat, j: nat)
    requires Less(a, b)
    ensures Less(a + [i], b + [j])
  {
    if |a| == |b| {
      LexAppend(a, b, i, j);
    }
  }

  lemma LessSiblings(p: Pos, i: nat, j: nat)
    requires i < j
    ensures Less(p + [i], p + [j])
  {
    LexSiblings(p, i, j);
  }

  /** Below and after: a position comes after each of its proper prefixes. */
  lemma LessThanDescendant(a: Pos, b: Pos)
    requires StrictPrefix(a, b)
    ensures Less(a, b)
  {
  }

  /** A position follows its parent's every predecessor's children. */
  lemma ParentOrder(c: Pos, d: Pos)
    requires c != [] && d != []
    requires Less(Parent(c), Parent(d)) || (Parent(c) == Parent(d) && Index(c) < Index(d))
    ensures Less(c, d)
  {
    assert c == Parent(c) + [Index(c)];
    assert d == Parent(d) + [Index(d)];
    if Parent(c) == Parent(d) {
      LessIrreflexive(Parent(c));
      LessSiblings(Parent(c), Index(c), Index(d));
    } else {
      LessChildren(Parent(c), Parent(d), Index(c), Index(d));
    }
  }
}
