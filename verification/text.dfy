/**
 * Text helpers used by the line parser and the address formatter:
 * splitting a string at every occurrence of one separator character
 * (without compressing adjacent separators), and decimal notation of
 * naturals.
 */
module Text {

  /** Splits `s` at every occurrence of `sep`. Adjacent separators give
      empty tokens, and the empty string gives one empty token, so the
      result is never empty and no token contains the separator. */
  function Split(s: string, sep: char): (r: seq<string>)
    ensures |r| >= 1
    ensures forall t :: t in r ==> sep !in t
  {
    if s == [] then [[]]
    else
      var rest := Split(s[1..], sep);
      if s[0] == sep then [[]] + rest
      else [[s[0]] + rest[0]] + rest[1..]
  }

  /** Text without the separator is one token. */
  lemma {:induction false} SplitWithoutSeparator(s: string, sep: char)
    requires sep !in s
    ensures Split(s, sep) == [s]
  {
    if s != [] {
      assert sep !in s[1..];
      SplitWithoutSeparator(s[1..], sep);
      assert [s[0]] + s[1..] == s;
    }
  }

  /** One step of `Split`: the first character either ends the first
      token or is prepended to it. */
  lemma SplitCons(c: char, rest: string, sep: char)
    ensures Split([c] + rest, sep)
         == if c == sep then [[]] + Split(rest, sep)
            else [[c] + Split(rest, sep)[0]] + Split(rest, sep)[1..]
  {
    assert ([c] + rest)[0] == c && ([c] + rest)[1..] == rest;
  }

  /** Regrouping a concatenation, stated once for any element type. */
  lemma ConcatAssoc<T>(a: seq<T>, b: seq<T>, c: seq<T>)
    ensures a + (b + c) == (a + b) + c
  {
  }

  /** Splitting the first piece off a dot-style join of three pieces. */
  lemma RegroupThree<T>(a: seq<T>, b: seq<T>, c: seq<T>, d: T)
    ensures a + [d] + b + [d] + c == a + [d] + (b + [d] + c)
  {
  }

  /** Splitting the first piece off a dot-style join of four pieces. */
  lemma RegroupFour<T>(a: seq<T>, b: seq<T>, c: seq<T>, e: seq<T>, d: T)
    ensures a + [d] + b + [d] + c + [d] + e == a + [d] + (b + [d] + c + [d] + e)
  {
  }

  /** Moving the first element of `x` out of `x + [d] + y`. */
  lemma HeadOut<T>(x: seq<T>, d: T, y: seq<T>)
    requires x != []
    ensures x == [x[0]] + x[1..]
    ensures x + [d] + y == [x[0]] + (x[1..] + [d] + y)
  {
    assert x == [x[0]] + x[1..];
  }

  /** A non-empty sequence is its head followed by its tail. */
  lemma HeadTail<T>(xs: seq<T>)
    requires xs != []
    ensures xs == [xs[0]] + xs[1..]
  {
  }

  /** Occurrences of `v` in `[x] + rest`: one for the head if it is `v`,
      plus those in `rest`. */
  lemma MultisetCons<T>(x: T, rest: seq<T>, v: T)
    ensures multiset([x] + rest)[v] == (if x == v then 1 else 0) + multiset(rest)[v]
  {
    assert multiset([x] + rest) == multiset([x]) + multiset(rest);
  }

  /** The head and the rest of `a + b` when `a` is not empty. */
  lemma HeadOfConcat<T>(a: seq<T>, b: seq<T>)
    requires a != []
    ensures (a + b)[0] == a[0]
    ensures (a + b)[1..] == a[1..] + b
  {
  }

  /** A separator between `x` and `y` cuts exactly there: the tokens of
      `x`, then the tokens of `y`. */
  lemma {:induction false} SplitAtSeparator(x: string, sep: char, y: string)
    ensures Split(x + [sep] + y, sep) == Split(x, sep) + Split(y, sep)
  {
    if x == [] {
      assert x + [sep] + y == [sep] + y;
      SplitCons(sep, y, sep);
    } else {
      var c, xs := x[0], x[1..];
      HeadOut(x, sep, y);
      SplitAtSeparator(xs, sep, y);
      SplitCons(c, xs + [sep] + y, sep);
      SplitCons(c, xs, sep);
      var tail, right := Split(xs, sep), Split(y, sep);
      if c == sep {
        ConcatAssoc([[]], tail, right);
      } else {
        HeadOfConcat(tail, right);
        ConcatAssoc([[c] + tail[0]], tail[1..], right);
      }
    }
  }

  /** The first token is the text up to the first separator. */
  lemma FirstTokenBeforeSeparator(x: string, sep: char, y: string)
    requires sep !in x
    ensures Split(x + [sep] + y, sep)[0] == x
  {
    SplitAtSeparator(x, sep, y);
    SplitWithoutSeparator(x, sep);
  }

  predicate IsDigit(c: char) { '0' <= c <= '9' }

  predicate IsDigits(s: string) { forall i :: 0 <= i < |s| ==> IsDigit(s[i]) }

  function DigitValue(c: char): nat
    requires IsDigit(c)
  {
    c as int - '0' as int
  }

  function DigitChar(d: nat): (c: char)
    requires d < 10
    ensures IsDigit(c) && DigitValue(c) == d
  {
    ('0' as int + d) as char
  }

  /** The value of a string of decimal digits, most significant first. */
  function DecimalValue(s: string): nat
    requires IsDigits(s)
  {
    if s == [] then 0
    else 10 * DecimalValue(s[..|s| - 1]) + DigitValue(s[|s| - 1])
  }

  /** Decimal notation of `n`, most significant digit first, without
      leading zeros. */
  function ShowDecimal(n: nat): (r: string)
    ensures r != [] && IsDigits(r)
    ensures |r| > 1 ==> r[0] != '0'
  {
    if n < 10 then [DigitChar(n)]
    else ShowDecimal(n / 10) + [DigitChar(n % 10)]
  }

  /** Reading the decimal notation of `n` gives back `n`. */
  lemma {:induction false} ShowDecimalValue(n: nat)
    ensures DecimalValue(ShowDecimal(n)) == n
  {
    if n >= 10 {
      var s := ShowDecimal(n);
      ShowDecimalValue(n / 10);
      assert s[..|s| - 1] == ShowDecimal(n / 10);
    }
  }

  /** A separator-free token before the first separator is split off as
      the first token, whatever follows. */
  lemma SplitLeadingToken(x: string, sep: char, y: string)
    requires sep !in x
    ensures Split(x + [sep] + y, sep) == [x] + Split(y, sep)
  {
    SplitAtSeparator(x, sep, y);
    SplitWithoutSeparator(x, sep);
  }

  /** Two separator-free pieces joined by the separator split back into
      those two pieces. */
  lemma SplitTwo(s1: string, s2: string, sep: char)
    requires sep !in s1 && sep !in s2
    ensures Split(s1 + [sep] + s2, sep) == [s1, s2]
  {
    SplitLeadingToken(s1, sep, s2);
    SplitWithoutSeparator(s2, sep);
  }

  /** Three separator-free pieces joined by the separator split back into
      those three pieces. */
  lemma SplitThree(s1: string, s2: string, s3: string, sep: char)
    requires sep !in s1 && sep !in s2 && sep !in s3
    ensures Split(s1 + [sep] + s2 + [sep] + s3, sep) == [s1, s2, s3]
  {
    var tail := s2 + [sep] + s3;
    RegroupThree(s1, s2, s3, sep);
    SplitLeadingToken(s1, sep, tail);
    SplitTwo(s2, s3, sep);
  }

  /** Four separator-free pieces joined by the separator split back into
      those four pieces. */
  lemma SplitFour(s1: string, s2: string, s3: string, s4: string, sep: char)
    requires sep !in s1 && sep !in s2 && sep !in s3 && sep !in s4
    ensures Split(s1 + [sep] + s2 + [sep] + s3 + [sep] + s4, sep) == [s1, s2, s3, s4]
  {
    var tail := s2 + [sep] + s3 + [sep] + s4;
    RegroupFour(s1, s2, s3, s4, sep);
    SplitLeadingToken(s1, sep, tail);
    SplitThree(s2, s3, s4, sep);
  }
}
