/**
 * The handful of Python string builtins the two generator scripts rely on:
 * substring test (`t in s`), `s.replace('\n', '<br>')`, `sep.join(parts)`,
 * `str(n)` for a non-negative integer and the format spec `{n:03}`.
 * Each comes with an independent inverse or characterisation.
 */
module Text {

  /** `t` occurs in `s` starting at offset `k`. */
  predicate OccursAt(s: string, t: string, k: int)
  {
    0 <= k <= |s| - |t| && s[k..k + |t|] == t
  }

  /** Python's `t in s` for strings: `t` occurs contiguously in `s`. */
  predicate Contains(s: string, t: string)
  {
    exists k | 0 <= k <= |s| - |t| :: OccursAt(s, t, k)
  }

  lemma ContainsInfix(a: string, t: string, b: string)
    ensures Contains(a + t + b, t)
  {
    var s := a + t + b;
    assert s[|a|..|a| + |t|] == t;
    assert OccursAt(s, t, |a|);
  }

  lemma ContainsWiden(a: string, s: string, b: string, t: string)
    requires Contains(s, t)
    ensures Contains(a + s + b, t)
  {
    var k :| 0 <= k <= |s| - |t| && OccursAt(s, t, k);
    var w := a + s + b;
    assert w[|a| + k..|a| + k + |t|] == s[k..k + |t|];
    assert OccursAt(w, t, |a| + k);
  }

  /** The slice of a concatenation at the middle operand's offsets is that operand. */
  lemma SliceMiddle(a: string, m: string, b: string)
    ensures (a + m + b)[|a|..|a| + |m|] == m
  {
  }

  /** Python's `s.replace('\n', '<br>')`. */
  function ReplaceNewlines(s: string): (r: string)
    ensures '\n' !in r
    ensures '\n' !in s ==> r == s
    ensures |r| == |s| + 3 * multiset(s)['\n']
    ensures forall c :: c in r <==> (c in s && c != '\n') || ('\n' in s && c in "<br>")
  {
    if |s| == 0 then ""
    else
      assert s == [s[0]] + s[1..];
      (if s[0] == '\n' then "<br>" else [s[0]]) + ReplaceNewlines(s[1..])
  }

  /** Python's `sep.join(parts)`. */
  function Join(parts: seq<string>, sep: char): string
  {
    if |parts| == 0 then ""
    else if |parts| == 1 then parts[0]
    else parts[0] + [sep] + Join(parts[1..], sep)
  }

  /** Python's `s.split(sep)` for a one-character separator: the fields between separators. */
  function Split(s: string, sep: char): (r: seq<string>)
    ensures |r| >= 1
    ensures forall k :: 0 <= k < |r| ==> sep !in r[k]
  {
    if |s| == 0 then [""]
    else
      assert s == [s[0]] + s[1..];
      var rest := Split(s[1..], sep);
      if s[0] == sep then [""] + rest
      else [[s[0]] + rest[0]] + rest[1..]
  }

  /** There is one more field than there are separators. */
  lemma {:induction false} SplitCount(s: string, sep: char)
    ensures |Split(s, sep)| == multiset(s)[sep] + 1
  {
    if |s| > 0 {
      assert s == [s[0]] + s[1..];
      assert multiset(s) == multiset([s[0]]) + multiset(s[1..]);
      SplitCount(s[1..], sep);
    }
  }

  /** No part of `parts` contains `c`. */
  predicate NoneContains(parts: seq<string>, c: char)
  {
    forall k :: 0 <= k < |parts| ==> c !in parts[k]
  }

  lemma {:induction false} SplitSingle(x: string, sep: char)
    requires sep !in x
    ensures Split(x, sep) == [x]
  {
    if |x| > 0 {
      SplitSingle(x[1..], sep);
      assert [x[0]] + x[1..] == x;
    }
  }

  lemma {:induction false} SplitCons(x: string, sep: char, rest: string)
    requires sep !in x
    ensures Split(x + [sep] + rest, sep) == [x] + Split(rest, sep)
  {
    if |x| == 0 {
      assert x + [sep] + rest == [sep] + rest;
      assert ([sep] + rest)[1..] == rest;
    } else {
      var s := x + [sep] + rest;
      assert s[1..] == x[1..] + [sep] + rest;
      SplitCons(x[1..], sep, rest);
      assert [x[0]] + x[1..] == x;
    }
  }

  /** Splitting undoes joining when no part contains the separator. */
  lemma {:induction false} SplitJoin(parts: seq<string>, sep: char)
    requires |parts| >= 1
    requires NoneContains(parts, sep)
    ensures Split(Join(parts, sep), sep) == parts
  {
    if |parts| == 1 {
      SplitSingle(parts[0], sep);
    } else {
      SplitJoin(parts[1..], sep);
      SplitCons(parts[0], sep, Join(parts[1..], sep));
      assert [parts[0]] + parts[1..] == parts;
    }
  }

  lemma JoinCons(x: string, parts: seq<string>, sep: char)
    requires |parts| >= 1
    ensures Join([x] + parts, sep) == x + [sep] + Join(parts, sep)
  {
    assert ([x] + parts)[1..] == parts;
  }

  lemma JoinHead(c: char, parts: seq<string>, sep: char)
    requires |parts| >= 1
    ensures Join([[c] + parts[0]] + parts[1..], sep) == [c] + Join(parts, sep)
  {
    var r := [[c] + parts[0]] + parts[1..];
    if |parts| > 1 {
      assert r[1..] == parts[1..];
    }
  }

  /** Joining undoes splitting, for every string. */
  lemma {:induction false} JoinSplit(s: string, sep: char)
    ensures Join(Split(s, sep), sep) == s
  {
    if |s| > 0 {
      JoinSplit(s[1..], sep);
      var rest := Split(s[1..], sep);
      assert s == [s[0]] + s[1..];
      if s[0] == sep {
        JoinCons("", rest, sep);
      } else {
        JoinHead(s[0], rest, sep);
      }
    }
  }

  lemma {:induction false} JoinAppend(xs: seq<string>, ys: seq<string>, sep: char)
    requires |xs| >= 1 && |ys| >= 1
    ensures Join(xs + ys, sep) == Join(xs, sep) + [sep] + Join(ys, sep)
  {
    if |xs| == 1 {
      assert (xs + ys)[1..] == ys;
    } else {
      assert (xs + ys)[1..] == xs[1..] + ys;
      JoinAppend(xs[1..], ys, sep);
    }
  }

  /** A character absent from every part is absent from the join unless it is the separator. */
  lemma {:induction false} JoinAvoids(parts: seq<string>, sep: char, c: char)
    requires NoneContains(parts, c) && c != sep
    ensures c !in Join(parts, sep)
  {
    if |parts| > 1 {
      JoinAvoids(parts[1..], sep, c);
    }
  }

  function DigitChar(d: nat): (c: char)
    requires d < 10
    ensures '0' <= c <= '9'
  {
    ('0' as int + d) as char
  }

  /** Every character of `s` is a decimal digit. */
  predicate AllDigits(s: string)
  {
    forall k :: 0 <= k < |s| ==> '0' <= s[k] <= '9'
  }

  /** Python's `str(n)` for a non-negative integer: canonical decimal, no leading zero. */
  function DecimalString(n: nat): (r: string)
    ensures |r| >= 1 && AllDigits(r)
    ensures n > 0 ==> r[0] != '0'
    ensures (n < 10 ==> |r| == 1) && (n < 100 ==> |r| <= 2) && (n < 1000 ==> |r| <= 3)
  {
    if n < 10 then [DigitChar(n)] else DecimalString(n / 10) + [DigitChar(n % 10)]
  }

  /** The number a string of decimal digits denotes (leading zeros allowed). */
  function DecimalValue(s: string): nat
    requires AllDigits(s)
  {
    if |s| == 0 then 0
    else DecimalValue(s[..|s| - 1]) * 10 + (s[|s| - 1] as int - '0' as int)
  }

  lemma {:induction false} DecimalRoundTrip(n: nat)
    ensures DecimalValue(DecimalString(n)) == n
  {
    if n >= 10 {
      DecimalRoundTrip(n / 10);
      var s := DecimalString(n);
      assert s[..|s| - 1] == DecimalString(n / 10);
    }
  }

  function Zeros(m: nat): (r: string)
    ensures |r| == m && AllDigits(r)
  {
    seq(m, _ => '0')
  }

  lemma {:induction false} LeadingZeros(m: nat, s: string)
    requires AllDigits(s)
    ensures DecimalValue(Zeros(m) + s) == DecimalValue(s)
    decreases |s|, m
  {
    var w := Zeros(m) + s;
    if |s| == 0 {
      assert w == Zeros(m);
      if m > 0 {
        assert w[..|w| - 1] == Zeros(m - 1);
        LeadingZeros(m - 1, "");
        assert Zeros(m - 1) + "" == Zeros(m - 1);
      }
    } else {
      assert w[..|w| - 1] == Zeros(m) + s[..|s| - 1];
      LeadingZeros(m, s[..|s| - 1]);
    }
  }

  /** Python's `f"{n:03}"` for a non-negative integer: zero-padded to at least three digits. */
  function Format03(n: nat): string
  {
    var d := DecimalString(n);
    if |d| >= 3 then d else Zeros(3 - |d|) + d
  }

  /** The padded form has at least three characters, all digits. */
  lemma Format03Digits(n: nat)
    ensures |Format03(n)| >= 3 && AllDigits(Format03(n))
  {
  }

  /** Below 1000 the padded form has exactly three digits and still denotes `n`. */
  lemma Format03RoundTrip(n: nat)
    requires n < 1000
    ensures |Format03(n)| == 3 && AllDigits(Format03(n))
    ensures DecimalValue(Format03(n)) == n
  {
    var d := DecimalString(n);
    DecimalRoundTrip(n);
    if |d| < 3 {
      LeadingZeros(3 - |d|, d);
    }
  }

  lemma Format03Injective(i: nat, j: nat)
    requires i < 1000 && j < 1000
    requires Format03(i) == Format03(j)
    ensures i == j
  {
    Format03RoundTrip(i);
    Format03RoundTrip(j);
  }

  /**
   * No character below the space occurs in `s`: none of the C0 control
   * characters, so in particular no tab and no line break.  (DEL and the
   * C1 controls are not excluded.)
   */
  predicate Plain(s: string)
  {
    forall k :: 0 <= k < |s| ==> ' ' <= s[k]
  }

  lemma PlainAppend(a: string, b: string)
    requires Plain(a) && Plain(b)
    ensures Plain(a + b)
  {
    forall k | 0 <= k < |a + b| ensures ' ' <= (a + b)[k] {
      if k >= |a| {
        assert (a + b)[k] == b[k - |a|];
      }
    }
  }

  lemma PlainAvoids(s: string, c: char)
    requires Plain(s) && c < ' '
    ensures c !in s
  {
  }

  lemma DigitsPlain(s: string)
    requires AllDigits(s)
    ensures Plain(s)
  {
  }

  // Counting occurrences, to say that a pattern occurs exactly once.

  /** The number of offsets at which `t` occurs in `s`. */
  function Occurrences(s: string, t: string): nat
    decreases |s|
  {
    if |s| == 0 then 0 else (if t <= s then 1 else 0) + Occurrences(s[1..], t)
  }

  /**
   * Neither of the last two characters of `a` is `c`, so no pattern of at
   * most three characters starting with `c` straddles the end of `a`.
   */
  predicate EndsClear(a: string, c: char)
  {
    (|a| < 1 || a[|a| - 1] != c) && (|a| < 2 || a[|a| - 2] != c)
  }

  lemma EndsClearAppend(a: string, b: string, c: char)
    requires EndsClear(b, c) && (|b| >= 2 || EndsClear(a, c))
    ensures EndsClear(a + b, c)
  {
    var s := a + b;
    if |b| < 2 && |s| >= 2 {
      if |b| == 1 {
        assert s[|s| - 2] == a[|a| - 1];
      } else {
        assert s == a;
      }
    }
  }

  lemma {:induction false} OccurrencesAbsent(s: string, t: string)
    requires |t| > 0 && t[0] !in s
    ensures Occurrences(s, t) == 0
    decreases |s|
  {
    if |s| > 0 {
      OccurrencesAbsent(s[1..], t);
    }
  }

  /** Occurrences add up over a concatenation when none can straddle the seam. */
  lemma {:induction false} OccurrencesAppend(a: string, b: string, t: string)
    requires 0 < |t| <= 3 && EndsClear(a, t[0])
    ensures Occurrences(a + b, t) == Occurrences(a, t) + Occurrences(b, t)
    decreases |a|
  {
    if |a| == 0 {
      assert a + b == b;
    } else {
      assert (a + b)[1..] == a[1..] + b;
      OccurrencesAppend(a[1..], b, t);
      if |a| >= |t| {
        assert (a + b)[..|t|] == a[..|t|];
      } else {
        assert (a + b)[0] == a[0] != t[0];
      }
    }
  }

  lemma {:induction false} OccurrencesDrop(s: string, t: string, p: nat)
    requires p <= |s|
    ensures Occurrences(s[p..], t) <= Occurrences(s, t)
    decreases p
  {
    if p > 0 {
      OccurrencesDrop(s[1..], t, p - 1);
      assert s[1..][p - 1..] == s[p..];
    }
  }

  lemma OccurrencesHit(s: string, t: string, p: int)
    requires |t| > 0 && OccursAt(s, t, p)
    ensures Occurrences(s[p..], t) == 1 + Occurrences(s[p + 1..], t)
  {
    assert s[p..][..|t|] == t;
    assert s[p..][1..] == s[p + 1..];
  }

  lemma {:induction false} OccurrencesFound(s: string, t: string)
    requires Occurrences(s, t) > 0
    ensures Contains(s, t)
    decreases |s|
  {
    if t <= s {
      assert s[0..|t|] == t;
      assert OccursAt(s, t, 0);
    } else {
      OccurrencesFound(s[1..], t);
      ContainsWiden([s[0]], s[1..], "", t);
      assert [s[0]] + s[1..] + "" == s;
    }
  }

  /** A count of one means that `t` occurs in `s`, and at a single offset. */
  lemma OccursOnce(s: string, t: string)
    requires |t| > 0 && Occurrences(s, t) == 1
    ensures Contains(s, t)
    ensures forall p, q :: OccursAt(s, t, p) && OccursAt(s, t, q) ==> p == q
  {
    OccurrencesFound(s, t);
    forall p, q | OccursAt(s, t, p) && OccursAt(s, t, q)
      ensures p == q
    {
      if p != q {
        var lo := if p < q then p else q;
        var hi := if p < q then q else p;
        OccurrencesDrop(s, t, lo);
        OccurrencesHit(s, t, lo);
        OccurrencesDrop(s[lo + 1..], t, hi - lo - 1);
        assert s[lo + 1..][hi - lo - 1..] == s[hi..];
        OccurrencesHit(s, t, hi);
      }
    }
  }
}
