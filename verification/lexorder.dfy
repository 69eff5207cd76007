/** The order std::string keys are kept in: lexicographic by character code,
    a proper prefix sorting first. */
module LexOrder {
  import opened Common

  predicate LexLe(a: string, b: string)
    decreases |a|
  {
    |a| == 0 || (|b| > 0 && (a[0] < b[0] || (a[0] == b[0] && LexLe(a[1..], b[1..]))))
  }

  lemma {:induction false} LexLeRefl(a: string)
    ensures LexLe(a, a)
    decreases |a|
  {
    if |a| > 0 { LexLeRefl(a[1..]); }
  }

  lemma {:induction false} LexLeTrans(a: string, b: string, c: string)
    requires LexLe(a, b) && LexLe(b, c)
    ensures LexLe(a, c)
    decreases |a|
  {
    if |a| > 0 && a[0] == b[0] && b[0] == c[0] {
      LexLeTrans(a[1..], b[1..], c[1..]);
    }
  }

  lemma {:induction false} LexLeTotal(a: string, b: string)
    ensures LexLe(a, b) || LexLe(b, a)
    decreases |a|
  {
    if |a| > 0 && |b| > 0 && a[0] == b[0] {
      LexLeTotal(a[1..], b[1..]);
    }
  }

  lemma {:induction false} LexLeAntisym(a: string, b: string)
    requires LexLe(a, b) && LexLe(b, a)
    ensures a == b
    decreases |a|
  {
    if |a| > 0 {
      LexLeAntisym(a[1..], b[1..]);
      assert a == [a[0]] + a[1..] && b == [b[0]] + b[1..];
    }
  }

  /** A string sorts no earlier than any of its prefixes. */
  lemma {:induction false} PrefixIsLe(s: string, p: string)
    requires StartsWith(s, p)
    ensures LexLe(p, s)
    decreases |p|
  {
    if |p| > 0 {
      assert s[1..][..|p| - 1] == p[1..];
      PrefixIsLe(s[1..], p[1..]);
    }
  }

  /** Keys sharing a prefix are contiguous: a string between p and a string
      that starts with p starts with p itself. */
  lemma {:induction false} PrefixSandwich(p: string, a: string, b: string)
    requires LexLe(p, a) && LexLe(a, b) && StartsWith(b, p)
    ensures StartsWith(a, p)
    decreases |p|
  {
    if |p| > 0 {
      assert b[0] == p[0];
      assert a[0] == p[0];
      assert b[1..][..|p| - 1] == p[1..];
      PrefixSandwich(p[1..], a[1..], b[1..]);
      assert a[..|p|] == [a[0]] + a[1..][..|p| - 1];
    }
  }
}
