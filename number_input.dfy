/**
 * The numeric text-field helpers: the character cleaning shared by the
 * per-keystroke filter and the parser, `split`/`join` on one separator, and
 * the per-keystroke filter itself.
 */
module NumberInput {

  /** What `\d` matches without the `u` flag: the ASCII digits. */
  predicate IsDigit(c: char) {
    '0' <= c <= '9'
  }

  /** The characters the pattern `/[^\d.]/g` leaves in place. */
  predicate IsNumeric(c: char) {
    IsDigit(c) || c == '.'
  }

  predicate AllNumeric(s: string) {
    forall i :: 0 <= i < |s| ==> IsNumeric(s[i])
  }

  /** The number of decimal points in `s`. */
  function Dots(s: string): nat {
    multiset(s)['.']
  }

  /**
   * `value.replace(/[^\d.]/g, '')`: keeps every digit and every point, in
   * order, and drops every other character.
   */
  function Clean(s: string): (r: string)
    ensures AllNumeric(r)
  {
    if s == [] then [] else (if IsNumeric(s[0]) then [s[0]] else []) + Clean(s[1..])
  }

  /** Cleaning keeps every digit and point of `s` and no other character. */
  lemma {:induction false} CleanCount(s: string, c: char)
    ensures multiset(Clean(s))[c] == if IsNumeric(c) then multiset(s)[c] else 0
  {
    if s != [] {
      CleanCount(s[1..], c);
      assert s == [s[0]] + s[1..];
    }
  }

  /** Text that is already numeric passes the cleaning unchanged. */
  lemma {:induction false} CleanNumeric(s: string)
    requires AllNumeric(s)
    ensures Clean(s) == s
  {
    if s != [] {
      CleanNumeric(s[1..]);
    }
  }

  /** Cleaning works character by character, so it distributes over concatenation. */
  lemma {:induction false} CleanAppend(a: string, b: string)
    ensures Clean(a + b) == Clean(a) + Clean(b)
  {
    if a == [] {
      assert a + b == b;
    } else {
      assert (a + b)[1..] == a[1..] + b;
      CleanAppend(a[1..], b);
      assert Clean(a + b) == (if IsNumeric(a[0]) then [a[0]] else []) + Clean(a[1..] + b);
    }
  }

  /** `parts.join(sep)` for a one-character separator. */
  function JoinWith(parts: seq<string>, sep: char): string {
    if |parts| == 0 then ""
    else if |parts| == 1 then parts[0]
    else parts[0] + [sep] + JoinWith(parts[1..], sep)
  }

  /** `parts.join('')`. */
  function Concat(parts: seq<string>): string {
    if parts == [] then "" else parts[0] + Concat(parts[1..])
  }

  /**
   * `s.split(sep)`: the pieces between the separators, one more piece than
   * there are separators, none of them holding the separator.
   */
  function Split(s: string, sep: char): (parts: seq<string>)
    ensures |parts| >= 1
    ensures forall k :: 0 <= k < |parts| ==> sep !in parts[k]
  {
    if s == [] then [""]
    else
      var rest := Split(s[1..], sep);
      assert s == [s[0]] + s[1..];
      if s[0] == sep then [""] + rest else [[s[0]] + rest[0]] + rest[1..]
  }

  /** A split gives one more piece than there are separators. */
  lemma {:induction false} SplitCount(s: string, sep: char)
    ensures |Split(s, sep)| == multiset(s)[sep] + 1
  {
    if s != [] {
      SplitCount(s[1..], sep);
      assert s == [s[0]] + s[1..];
    }
  }

  /** Every character of a piece of a split comes from the text. */
  lemma {:induction false} SplitChars(s: string, sep: char, k: int, c: char)
    requires 0 <= k < |Split(s, sep)| && c in Split(s, sep)[k]
    ensures c in s
  {
    if s != [] {
      var rest := Split(s[1..], sep);
      if s[0] == sep {
        assert Split(s, sep) == [""] + rest;
        SplitChars(s[1..], sep, k - 1, c);
      } else {
        assert Split(s, sep) == [[s[0]] + rest[0]] + rest[1..];
        if k == 0 {
          if c != s[0] {
            SplitChars(s[1..], sep, 0, c);
          }
        } else {
          SplitChars(s[1..], sep, k, c);
        }
      }
    }
  }

  /** Joining the pieces of a split with the same separator gives back the text. */
  lemma {:induction false} SplitJoin(s: string, sep: char)
    ensures JoinWith(Split(s, sep), sep) == s
  {
    if s != [] {
      var rest := Split(s[1..], sep);
      SplitJoin(s[1..], sep);
      if s[0] == sep {
        assert Split(s, sep) == [""] + rest;
        JoinEmptyHead(rest, sep);
      } else {
        assert Split(s, sep) == [[s[0]] + rest[0]] + rest[1..];
        JoinCons(s[0], rest, sep);
      }
      assert [s[0]] + s[1..] == s;
    }
  }

  /** An empty first piece leaves the separator at the front of the join. */
  lemma JoinEmptyHead(parts: seq<string>, sep: char)
    requires |parts| > 0
    ensures JoinWith([""] + parts, sep) == [sep] + JoinWith(parts, sep)
  {
    var q := [""] + parts;
    assert q[1..] == parts;
  }

  /** Putting a character in front of the first piece puts it in front of the join. */
  lemma JoinCons(c: char, parts: seq<string>, sep: char)
    requires |parts| > 0
    ensures JoinWith([[c] + parts[0]] + parts[1..], sep) == [c] + JoinWith(parts, sep)
  {
    var q := [[c] + parts[0]] + parts[1..];
    assert q[1..] == parts[1..];
  }

  /** Splitting pieces that hold no separator, once joined, gives back the pieces. */
  lemma {:induction false} JoinSplit(parts: seq<string>, sep: char)
    requires |parts| > 0
    requires forall k :: 0 <= k < |parts| ==> sep !in parts[k]
    ensures Split(JoinWith(parts, sep), sep) == parts
  {
    if |parts| == 1 {
      SplitFree(parts[0], sep);
    } else {
      JoinSplit(parts[1..], sep);
      SplitPrefix(parts[0], JoinWith(parts[1..], sep), sep);
      assert parts == [parts[0]] + parts[1..];
    }
  }

  /** Text without the separator splits into itself. */
  lemma {:induction false} SplitFree(s: string, sep: char)
    requires sep !in s
    ensures Split(s, sep) == [s]
  {
    if s != [] {
      SplitFree(s[1..], sep);
      assert [s[0]] + s[1..] == s;
    }
  }

  /** A separator-free prefix followed by the separator becomes the first piece. */
  lemma {:induction false} SplitPrefix(a: string, b: string, sep: char)
    requires sep !in a
    ensures Split(a + [sep] + b, sep) == [a] + Split(b, sep)
  {
    if a == [] {
      assert a + [sep] + b == [sep] + b;
      SplitCons(sep, b, sep);
    } else {
      SplitPrefix(a[1..], b, sep);
      assert a + [sep] + b == [a[0]] + (a[1..] + [sep] + b);
      SplitCons(a[0], a[1..] + [sep] + b, sep);
      assert [a[0]] + a[1..] == a;
    }
  }

  /** `Split` on a text with a known first character. */
  lemma SplitCons(c: char, t: string, sep: char)
    ensures Split([c] + t, sep) ==
      if c == sep then [""] + Split(t, sep) else [[c] + Split(t, sep)[0]] + Split(t, sep)[1..]
  {
    assert ([c] + t)[1..] == t;
  }

  /** Text without points concatenates to text without points. */
  lemma {:induction false} ConcatNoDots(parts: seq<string>)
    requires forall k :: 0 <= k < |parts| ==> '.' !in parts[k]
    ensures '.' !in Concat(parts)
  {
    if parts != [] {
      ConcatNoDots(parts[1..]);
    }
  }

  /** Joining with a point or without one keeps the same characters other than points. */
  lemma {:induction false} JoinConcatCount(parts: seq<string>, c: char)
    requires c != '.'
    ensures multiset(JoinWith(parts, '.'))[c] == multiset(Concat(parts))[c]
  {
    if |parts| == 1 {
      assert Concat(parts) == parts[0] + Concat([]);
    } else if |parts| > 1 {
      JoinConcatCount(parts[1..], c);
    }
  }

  /** `value.slice(0, n)`. */
  function Take(s: string, n: nat): string {
    if |s| <= n then s else s[..n]
  }

  /**
   * `formatNumberInput`, as written: clean the text, then, when it holds two
   * or more points, keep the first and glue the later pieces onto the
   * fraction; when it holds exactly one point, cut the fraction to two digits.
   */
  function FormatNumberInput(value: string): (r: string)
    ensures AllNumeric(r) && Dots(r) <= 1
    ensures Dots(Clean(value)) == 0 ==> r == Clean(value)
  {
    var v := Clean(value);
    var parts := Split(v, '.');
    SplitCount(v, '.');
    PiecesNumeric(v, 0);
    if |parts| > 2 then
      RestNumeric(v);
      OnePoint(parts[0], Concat(parts[1..]));
      parts[0] + "." + Concat(parts[1..])
    else if |parts| == 2 then
      RestNumeric(v);
      TakeNumeric(parts[1], 2);
      OnePoint(parts[0], Take(parts[1], 2));
      parts[0] + "." + Take(parts[1], 2)
    else v
  }

  /** Two point-free pieces around one point split back into those two pieces. */
  lemma PointSplit(a: string, b: string)
    requires '.' !in a && '.' !in b
    ensures Split(a + "." + b, '.') == [a, b]
  {
    SplitPrefix(a, b, '.');
    SplitFree(b, '.');
  }

  /** The pieces of a numeric text are numeric. */
  lemma PiecesNumeric(v: string, k: int)
    requires AllNumeric(v) && 0 <= k < |Split(v, '.')|
    ensures AllNumeric(Split(v, '.')[k])
  {
    var piece := Split(v, '.')[k];
    forall i | 0 <= i < |piece| ensures IsNumeric(piece[i]) {
      SplitChars(v, '.', k, piece[i]);
    }
  }

  /** Point-free numeric text is made of digits only. */
  lemma ConcatNumeric(parts: seq<string>)
    requires forall k :: 0 <= k < |parts| ==> AllNumeric(parts[k])
    ensures AllNumeric(Concat(parts))
  {
    if parts != [] {
      ConcatNumeric(parts[1..]);
    }
  }

  /** The pieces after the first, of numeric text with a point, are digits only, glued or not. */
  lemma RestNumeric(v: string)
    requires AllNumeric(v) && |Split(v, '.')| >= 2
    ensures var parts := Split(v, '.');
      && AllNumeric(parts[1]) && '.' !in parts[1]
      && AllNumeric(Concat(parts[1..])) && '.' !in Concat(parts[1..])
  {
    var parts := Split(v, '.');
    forall k | 0 <= k < |parts[1..]| ensures AllNumeric(parts[1..][k]) {
      PiecesNumeric(v, k + 1);
    }
    ConcatNumeric(parts[1..]);
    ConcatNoDots(parts[1..]);
  }

  /** Two point-free numeric pieces around one point: numeric, with exactly one point. */
  lemma OnePoint(a: string, b: string)
    requires AllNumeric(a) && AllNumeric(b) && '.' !in a && '.' !in b
    ensures AllNumeric(a + "." + b) && Dots(a + "." + b) == 1
  {
    PointNumeric(a, b);
    assert multiset(a + "." + b) == multiset(a) + multiset{'.'} + multiset(b);
  }

  /** A prefix of point-free numeric text is point-free numeric text. */
  lemma TakeNumeric(s: string, n: nat)
    requires AllNumeric(s) && '.' !in s
    ensures AllNumeric(Take(s, n)) && '.' !in Take(s, n)
  {
    if |s| > n {
      assert forall c :: c in s[..n] ==> c in s;
    }
  }

  /**
   * With exactly one point after cleaning, the whole part is kept and the
   * fraction is cut to its first two digits, or kept whole when shorter.
   */
  lemma FormatNumberInputOneDot(value: string)
    requires Dots(Clean(value)) == 1
    ensures var before, after := Split(Clean(value), '.'), Split(FormatNumberInput(value), '.');
      && |after| == 2
      && after[0] == before[0]
      && (|before[1]| <= 2 ==> after[1] == before[1])
      && (|before[1]| > 2 ==> after[1] == before[1][..2])
  {
    var parts := Split(Clean(value), '.');
    SplitCount(Clean(value), '.');
    PointSplit(parts[0], Take(parts[1], 2));
  }

  /**
   * With two or more points after cleaning, one point remains, the whole part
   * is kept and the later pieces are glued, in order, onto the fraction
   * without the two-digit cut; no digit is dropped.
   */
  lemma FormatNumberInputManyDots(value: string)
    requires Dots(Clean(value)) >= 2
    ensures Dots(FormatNumberInput(value)) == 1
    ensures var parts := Split(Clean(value), '.');
      Split(FormatNumberInput(value), '.') == [parts[0], Concat(parts[1..])]
    ensures forall c :: c != '.' ==> multiset(FormatNumberInput(value))[c] == multiset(Clean(value))[c]
  {
    var v := Clean(value);
    var parts := Split(v, '.');
    var tail := Concat(parts[1..]);
    ConcatNoDots(parts[1..]);
    PointSplit(parts[0], tail);
    SplitJoin(v, '.');
    assert v == parts[0] + ['.'] + JoinWith(parts[1..], '.');
    forall c | c != '.'
      ensures multiset(FormatNumberInput(value))[c] == multiset(v)[c]
    {
      JoinConcatCount(parts[1..], c);
    }
  }

  /** On text with at most one point after cleaning, filtering again changes nothing. */
  lemma FormatNumberInputIdempotent(value: string)
    requires Dots(Clean(value)) <= 1
    ensures FormatNumberInput(FormatNumberInput(value)) == FormatNumberInput(value)
  {
    var v := Clean(value);
    var parts := Split(v, '.');
    var r := FormatNumberInput(value);
    SplitCount(v, '.');
    CleanNumeric(r);
    if |parts| == 2 {
      PointSplit(parts[0], Take(parts[1], 2));
    }
  }

  predicate AllDigits(s: string) {
    forall i :: 0 <= i < |s| ==> IsDigit(s[i])
  }

  /**
   * Pasting `a.b.c` with digit runs `a`, `b`, `c` leaves `a.bc`, whose fraction
   * is longer than two digits when `b` and `c` together are; a second pass
   * then cuts it, so the filter is not idempotent there (`1.2.345` gives
   * `1.2345`, then `1.23`).
   */
  lemma FormatNumberInputTwoPoints(a: string, b: string, c: string)
    requires AllDigits(a) && AllDigits(b) && AllDigits(c)
    requires |b| + |c| > 2
    ensures FormatNumberInput(a + "." + b + "." + c) == a + "." + (b + c)
    ensures FormatNumberInput(a + "." + (b + c)) == a + "." + (b + c)[..2]
    ensures FormatNumberInput(FormatNumberInput(a + "." + b + "." + c)) != FormatNumberInput(a + "." + b + "." + c)
  {
    GluesPieces(a, b, c);
    CutsFraction(a, b + c);
    assert |a + "." + (b + c)[..2]| < |a + "." + (b + c)|;
  }

  /** The first pass on `a.b.c` glues `b` and `c` into the fraction. */
  lemma GluesPieces(a: string, b: string, c: string)
    requires AllDigits(a) && AllDigits(b) && AllDigits(c)
    ensures FormatNumberInput(a + "." + b + "." + c) == a + "." + (b + c)
  {
    var s := a + "." + b + "." + c;
    NoPoint(a);
    NoPoint(b);
    NoPoint(c);
    CleanThree(a, b, c);
    SplitThree(a, b, c);
    ConcatPair(b, c);
    assert [a, b, c][1..] == [b, c];
  }

  /** `[b, c].join('')` is `b + c`. */
  lemma ConcatPair(b: string, c: string)
    ensures Concat([b, c]) == b + c
  {
    assert [b, c][1..] == [c];
    assert Concat([c]) == c + Concat([]);
  }

  /** Digits are numeric and hold no point. */
  lemma NoPoint(a: string)
    requires AllDigits(a)
    ensures AllNumeric(a) && '.' !in a
  {
  }

  /** `a.b.c` made of numeric pieces passes the cleaning unchanged. */
  lemma CleanThree(a: string, b: string, c: string)
    requires AllNumeric(a) && AllNumeric(b) && AllNumeric(c)
    ensures Clean(a + "." + b + "." + c) == a + "." + b + "." + c
  {
    PointNumeric(b, c);
    PointNumeric(a, b + "." + c);
    assert a + "." + b + "." + c == a + "." + (b + "." + c);
    CleanNumeric(a + "." + b + "." + c);
  }

  /** `a.b.c` with point-free pieces splits into those three pieces. */
  lemma SplitThree(a: string, b: string, c: string)
    requires '.' !in a && '.' !in b && '.' !in c
    ensures Split(a + "." + b + "." + c, '.') == [a, b, c]
  {
    PointSplit(b, c);
    assert a + "." + b + "." + c == a + ['.'] + (b + "." + c);
    SplitPrefix(a, b + "." + c, '.');
  }

  /** Two numeric texts around a point make a numeric text. */
  lemma PointNumeric(x: string, y: string)
    requires AllNumeric(x) && AllNumeric(y)
    ensures AllNumeric(x + "." + y)
  {
    var s := x + "." + y;
    forall i | 0 <= i < |s| ensures IsNumeric(s[i]) {
      if i < |x| { assert s[i] == x[i]; } else if i > |x| { assert s[i] == y[i - |x| - 1]; }
    }
  }

  /** A pass on `a.f` with more than two fraction digits keeps two of them. */
  lemma CutsFraction(a: string, f: string)
    requires AllDigits(a) && AllDigits(f) && |f| > 2
    ensures FormatNumberInput(a + "." + f) == a + "." + f[..2]
  {
    var t := a + "." + f;
    assert '.' !in a && '.' !in f;
    PointNumeric(a, f);
    CleanNumeric(t);
    PointSplit(a, f);
  }

  /**
   * The filter as its comment describes it: one point, and at most two
   * fraction digits in every case, the later pieces first glued together.
   */
  function FormatNumberInputTwoDecimals(value: string): (r: string)
    ensures AllNumeric(r) && Dots(r) <= 1
    ensures |Split(r, '.')| == 2 ==> |Split(r, '.')[1]| <= 2
  {
    var v := Clean(value);
    var parts := Split(v, '.');
    SplitCount(v, '.');
    PiecesNumeric(v, 0);
    if |parts| >= 2 then
      var tail := Take(Concat(parts[1..]), 2);
      RestNumeric(v);
      TakeNumeric(Concat(parts[1..]), 2);
      OnePoint(parts[0], tail);
      PointSplit(parts[0], tail);
      parts[0] + "." + tail
    else v
  }

  /** The intended filter is idempotent on every input. */
  lemma TwoDecimalsIdempotent(value: string)
    ensures FormatNumberInputTwoDecimals(FormatNumberInputTwoDecimals(value)) == FormatNumberInputTwoDecimals(value)
  {
    var v := Clean(value);
    var parts := Split(v, '.');
    var r := FormatNumberInputTwoDecimals(value);
    CleanNumeric(r);
    if |parts| >= 2 {
      var tail := Take(Concat(parts[1..]), 2);
      ConcatNoDots(parts[1..]);
      PointSplit(parts[0], tail);
      assert Split(r, '.')[1..] == [tail];
      assert Concat([tail]) == tail + Concat([]);
    }
  }

  /**
   * The intended filter is the written one applied twice: the second pass
   * cuts the fraction that the first pass glued together.
   */
  lemma TwoDecimalsIsSecondPass(value: string)
    ensures FormatNumberInputTwoDecimals(value) == FormatNumberInput(FormatNumberInput(value))
  {
    var v := Clean(value);
    var parts := Split(v, '.');
    SplitCount(v, '.');
    if |parts| <= 2 {
      FormatNumberInputIdempotent(value);
      TwoDecimalsAgrees(value);
    } else {
      var tail := Concat(parts[1..]);
      var once := parts[0] + "." + tail;
      PiecesNumeric(v, 0);
      RestNumeric(v);
      OnePoint(parts[0], tail);
      CleanNumeric(once);
      PointSplit(parts[0], tail);
    }
  }

  /** On text with at most one point the intended filter and the written one agree. */
  lemma TwoDecimalsAgrees(value: string)
    requires Dots(Clean(value)) <= 1
    ensures FormatNumberInputTwoDecimals(value) == FormatNumberInput(value)
  {
    var parts := Split(Clean(value), '.');
    SplitCount(Clean(value), '.');
    if |parts| == 2 {
      assert Concat(parts[1..]) == parts[1] by {
        assert parts[1..] == [parts[1]];
        assert Concat([parts[1]]) == parts[1] + Concat([]);
      }
    }
  }
}
