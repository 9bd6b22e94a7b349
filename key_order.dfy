/**
 * The one total order on keys used by the whole storage engine.
 *
 * The source sorts with `localeCompare` but compares with `<`, `<=`, `>` and
 * `===`.  This model uses a single order for both: lexicographic order on
 * strings, with characters compared by their code.  This is the order of the
 * JavaScript operators on strings for characters below U+10000.
 */
module KeyOrder {

  /** Strict lexicographic order: `a` is a proper prefix of `b`, or the first
      differing character of `a` is smaller. */
  predicate Less(a: string, b: string)
    decreases |a|
  {
    if |a| == 0 then |b| > 0
    else if |b| == 0 then false
    else if a[0] != b[0] then a[0] < b[0]
    else Less(a[1..], b[1..])
  }

  predicate LessEq(a: string, b: string)
  {
    a == b || Less(a, b)
  }

  lemma {:induction false} Irreflexive(a: string)
    ensures !Less(a, a)
    decreases |a|
  {
    if |a| > 0 {
      Irreflexive(a[1..]);
    }
  }

  lemma {:induction false} Asymmetric(a: string, b: string)
    requires Less(a, b)
    ensures !Less(b, a)
    decreases |a|
  {
    if |a| > 0 && |b| > 0 && a[0] == b[0] {
      Asymmetric(a[1..], b[1..]);
    }
  }

  lemma {:induction false} Transitive(a: string, b: string, c: string)
    requires Less(a, b) && Less(b, c)
    ensures Less(a, c)
    decreases |a|
  {
    if |a| > 0 && a[0] == b[0] && b[0] == c[0] {
      Transitive(a[1..], b[1..], c[1..]);
    }
  }

  /** Any two keys are equal or ordered one way: the order is total. */
  lemma {:induction false} Trichotomy(a: string, b: string)
    ensures a == b || Less(a, b) || Less(b, a)
    decreases |a|
  {
    if |a| > 0 && |b| > 0 && a[0] == b[0] {
      Trichotomy(a[1..], b[1..]);
      if a[1..] == b[1..] {
        assert a == [a[0]] + a[1..] && b == [b[0]] + b[1..];
      }
    }
  }

  lemma LessEqTransitive(a: string, b: string, c: string)
    requires LessEq(a, b) && LessEq(b, c)
    ensures LessEq(a, c)
  {
    if a != b && b != c {
      Transitive(a, b, c);
    }
  }

  lemma LessLessEq(a: string, b: string, c: string)
    requires Less(a, b) && LessEq(b, c)
    ensures Less(a, c)
  {
    if b != c {
      Transitive(a, b, c);
    }
  }

  lemma LessEqLess(a: string, b: string, c: string)
    requires LessEq(a, b) && Less(b, c)
    ensures Less(a, c)
  {
    if a != b {
      Transitive(a, b, c);
    }
  }

  /** The negation of `Less` is `LessEq` the other way round. */
  lemma NotLess(a: string, b: string)
    ensures !Less(a, b) <==> LessEq(b, a)
  {
    Trichotomy(a, b);
    if Less(a, b) {
      Asymmetric(a, b);
      Irreflexive(a);
    }
    if Less(b, a) {
      Asymmetric(b, a);
    }
  }

  /** The empty string precedes every other key. */
  lemma EmptyLeast(a: string)
    ensures LessEq("", a)
  {
  }
}
