/** String helpers with the meaning Python gives them, shared by the
    resolvers, the field verifier and the table code. */
module Text {

  /** The marker appended to a truncated cell or label. */
  const Ellipsis: char := '…'

  /** The single quote whose count truncation keeps even. */
  const Quote: char := '\''

  /** No element occurs twice. */
  predicate Distinct(s: seq<string>)
  {
    forall i, j :: 0 <= i < j < |s| ==> s[i] != s[j]
  }

  /** Python's `s.count(c)` for a one-character `c`. */
  function Count(s: string, c: char): nat
  {
    if s == [] then 0 else Count(s[..|s| - 1], c) + (if s[|s| - 1] == c then 1 else 0)
  }

  lemma {:induction false} CountAppend(s: string, t: string, c: char)
    ensures Count(s + t, c) == Count(s, c) + Count(t, c)
  {
    if t == [] {
      assert s + t == s;
    } else {
      assert (s + t)[..|s + t| - 1] == s + t[..|t| - 1];
      CountAppend(s, t[..|t| - 1], c);
    }
  }

  lemma {:induction false} CountAbsent(s: string, c: char)
    requires c !in s
    ensures Count(s, c) == 0
  {
    if s != [] {
      CountAbsent(s[..|s| - 1], c);
    }
  }

  /** Python's `s[:n]`: a negative `n` counts from the end, and the slice
      stops at either end of `s`. */
  function PyPrefix(s: string, n: int): (r: string)
    ensures |r| == (if n >= |s| then |s| else if n >= 0 then n else if |s| + n >= 0 then |s| + n else 0)
    ensures r == s[..|r|]
  {
    if n >= |s| then s
    else if n >= 0 then s[..n]
    else if |s| + n >= 0 then s[..|s| + n]
    else []
  }

  /** Appends a quote when `s` holds an odd number of them, so that no
      quote is left unterminated. */
  function BalanceQuotes(s: string): (r: string)
    ensures Count(r, Quote) % 2 == 0
    ensures Count(s, Quote) % 2 == 0 ==> r == s
    ensures Count(s, Quote) % 2 == 1 ==> r == s + [Quote]
  {
    assert (s + [Quote])[..|s|] == s;
    if Count(s, Quote) % 2 == 1 then s + [Quote] else s
  }

  /** Python's `s.replace(c, t)` for a one-character `c`. */
  function ReplaceChar(s: string, c: char, t: string): (r: string)
    ensures c !in t ==> c !in r
    ensures c !in s ==> r == s
  {
    if s == [] then []
    else ReplaceChar(s[..|s| - 1], c, t) + (if s[|s| - 1] == c then t else [s[|s| - 1]])
  }

  /** Replacement works character by character: an occurrence of `c`
      becomes `t` and any other character stays. */
  lemma ReplaceCharSingle(x: char, c: char, t: string)
    ensures ReplaceChar([x], c, t) == if x == c then t else [x]
  {
    assert [x][..0] == [];
  }

  lemma {:induction false} ReplaceCharAppend(a: string, b: string, c: char, t: string)
    ensures ReplaceChar(a + b, c, t) == ReplaceChar(a, c, t) + ReplaceChar(b, c, t)
  {
    if b == [] {
      assert a + b == a;
    } else {
      var init, x := b[..|b| - 1], b[|b| - 1];
      var piece := if x == c then t else [x];
      assert (a + b)[..|a + b| - 1] == a + init && (a + b)[|a + b| - 1] == x;
      assert ReplaceChar(a + b, c, t) == ReplaceChar(a + init, c, t) + piece;
      ReplaceCharAppend(a, init, c, t);
      assert ReplaceChar(b, c, t) == ReplaceChar(init, c, t) + piece;
    }
  }

  /** Each occurrence of `c` trades one character for the `|t|` of its
      replacement. */
  lemma {:induction false} ReplaceCharLength(s: string, c: char, t: string)
    ensures |ReplaceChar(s, c, t)| == |s| + Count(s, c) * (|t| - 1)
  {
    if s != [] {
      var init := s[..|s| - 1];
      ReplaceCharLength(init, c, t);
      var k, m := Count(init, c), |t| - 1;
      if s[|s| - 1] == c {
        assert |ReplaceChar(s, c, t)| == |init| + k * m + |t|;
        assert Count(s, c) == k + 1;
        assert (k + 1) * m == k * m + m;
      } else {
        assert |ReplaceChar(s, c, t)| == |init| + k * m + 1;
        assert Count(s, c) == k;
      }
    }
  }

  /** With a one-character replacement the length is kept and each
      position is mapped on its own. */
  lemma {:induction false} ReplaceCharPointwise(s: string, c: char, d: char)
    ensures var r := ReplaceChar(s, c, [d]);
      |r| == |s| && forall i :: 0 <= i < |s| ==> r[i] == (if s[i] == c then d else s[i])
  {
    if s != [] {
      ReplaceCharPointwise(s[..|s| - 1], c, d);
    }
  }

  /** ASCII case mapping; the labels this model case-maps are ASCII words. */
  predicate IsLetter(c: char)
  {
    'A' <= c <= 'Z' || 'a' <= c <= 'z'
  }

  function LowerChar(c: char): char
  {
    if 'A' <= c <= 'Z' then (c as int + 32) as char else c
  }

  function UpperChar(c: char): char
  {
    if 'a' <= c <= 'z' then (c as int - 32) as char else c
  }

  /** Python's `s.lower()` on ASCII text. */
  function Lower(s: string): (r: string)
    ensures |r| == |s| && forall i :: 0 <= i < |s| ==> r[i] == LowerChar(s[i])
  {
    seq(|s|, i requires 0 <= i < |s| => LowerChar(s[i]))
  }

  /** The character `s.title()` puts at position `i` of ASCII text: a
      letter is upper-cased when it starts a word (nothing or a non-letter
      before it) and lower-cased otherwise. */
  function TitleAt(s: string, i: nat): char
    requires i < |s|
  {
    if i == 0 || !IsLetter(s[i - 1]) then UpperChar(s[i]) else LowerChar(s[i])
  }

  /** Python's `s.title()` on ASCII text. */
  function Title(s: string): (r: string)
    ensures |r| == |s| && forall i :: 0 <= i < |s| ==> r[i] == TitleAt(s, i)
  {
    seq(|s|, i requires 0 <= i < |s| => TitleAt(s, i))
  }

  lemma LetterCase(c: char)
    ensures IsLetter(LowerChar(c)) == IsLetter(c)
    ensures IsLetter(UpperChar(c)) == IsLetter(c)
    ensures UpperChar(LowerChar(c)) == UpperChar(c)
    ensures LowerChar(UpperChar(c)) == LowerChar(c)
    ensures UpperChar(UpperChar(c)) == UpperChar(c)
    ensures LowerChar(LowerChar(c)) == LowerChar(c)
  {
  }

  /** Title-casing ignores the case the input was written in. */
  lemma TitleOfLower(s: string)
    ensures Title(Lower(s)) == Title(s)
  {
    var l := Lower(s);
    forall i | 0 <= i < |s|
      ensures Title(l)[i] == Title(s)[i]
    {
      LetterCase(s[i]);
      if i > 0 {
        LetterCase(s[i - 1]);
      }
    }
  }

  /** Title-casing twice is title-casing once, and lower-casing a title
      gives the lower-cased input. */
  lemma TitleIdempotent(s: string)
    ensures Title(Title(s)) == Title(s)
    ensures Lower(Title(s)) == Lower(s)
  {
    var t := Title(s);
    forall i | 0 <= i < |s|
      ensures Title(t)[i] == t[i] && LowerChar(t[i]) == LowerChar(s[i])
    {
      LetterCase(s[i]);
      if i > 0 {
        LetterCase(s[i - 1]);
      }
    }
  }

  function DigitChar(d: nat): char
    requires d < 10
  {
    ('0' as int + d) as char
  }

  predicate IsDigits(s: string)
  {
    forall i :: 0 <= i < |s| ==> '0' <= s[i] <= '9'
  }

  /** Python's `str(n)` for a non-negative int: decimal digits, no
      leading zero. */
  function Decimal(n: nat): (r: string)
    ensures |r| >= 1 && IsDigits(r)
    ensures r[0] == '0' ==> n == 0 && r == "0"
  {
    if n < 10 then [DigitChar(n)] else Decimal(n / 10) + [DigitChar(n % 10)]
  }

  /** Reads decimal digits back as a number; the partner of `Decimal`. */
  function DecimalValue(s: string): nat
    requires IsDigits(s)
  {
    if s == [] then 0 else DecimalValue(s[..|s| - 1]) * 10 + (s[|s| - 1] as int - '0' as int)
  }

  lemma {:induction false} DecimalRoundTrip(n: nat)
    ensures DecimalValue(Decimal(n)) == n
  {
    if n >= 10 {
      DecimalRoundTrip(n / 10);
      var r := Decimal(n);
      assert r[..|r| - 1] == Decimal(n / 10);
    }
  }
}
