/**
 Number literals of the shape `-?\d+(?:\.\d+)?` (wind_alert.py line 51): their
 structure, their exact decimal value, and the greedy lexer that finds the
 literal a regular-expression match would take at the start of a string.
 */
module Literals {
  import opened Chars

  /**
   One literal. `fraction` is empty when the literal has no fractional part;
   a literal with a fractional part always has at least one digit after the dot.
   */
  datatype Literal = Literal(negative: bool, whole: string, fraction: string) {

    predicate Valid() {
      && |whole| > 0
      && (forall i :: 0 <= i < |whole| ==> IsDigit(whole[i]))
      && (forall i :: 0 <= i < |fraction| ==> IsDigit(fraction[i]))
    }

    /** The characters of the literal: exactly the strings `-?\d+(?:\.\d+)?` accepts. */
    function Text(): (t: string) {
      (if negative then "-" else "") + whole + (if |fraction| > 0 then "." + fraction else "")
    }

    /** The exact decimal value the literal denotes. */
    function Value(): (v: real)
      requires Valid()
    {
      var magnitude := DigitsValue(whole) as real + DigitsValue(fraction) as real / Pow10(|fraction|) as real;
      if negative then -magnitude else magnitude
    }
  }

  function Pow10(n: nat): (p: nat)
    ensures p >= 1
  {
    if n == 0 then 1 else 10 * Pow10(n - 1)
  }

  /** The natural number a string of decimal digits denotes, most significant digit first. */
  function DigitsValue(s: string): (n: nat)
    requires forall i :: 0 <= i < |s| ==> IsDigit(s[i])
  {
    if |s| == 0 then 0 else 10 * DigitsValue(s[..|s| - 1]) + DigitValue(s[|s| - 1])
  }

  /** The length of a literal's text: sign, whole part, and dot with fraction when there is one. */
  lemma TextLength(l: Literal)
    ensures |l.Text()| == (if l.negative then 1 else 0) + |l.whole| + (if |l.fraction| > 0 then 1 + |l.fraction| else 0)
  {
  }

  /** The character at each position of a literal's text. */
  lemma TextAt(l: Literal, i: nat)
    requires i < |l.Text()|
    ensures var o, k := (if l.negative then 1 else 0), |l.whole|;
      l.Text()[i] == if i < o then '-' else if i < o + k then l.whole[i - o] else if i == o + k then '.' else l.fraction[i - o - k - 1]
  {
    var sign := if l.negative then "-" else "";
    var tail := if |l.fraction| > 0 then "." + l.fraction else "";
    var o, k := |sign|, |l.whole|;
    assert l.Text() == sign + l.whole + tail;
    if i < o + k {
      assert l.Text()[i] == (sign + l.whole)[i];
    } else {
      assert l.Text()[i] == tail[i - o - k];
    }
  }

  /**
   What kind of character sits where in a literal's text: the sign only in
   front, the dot only right after the whole part, digits everywhere else.
   */
  lemma TextClasses(l: Literal)
    requires l.Valid()
    ensures var o, k, t := (if l.negative then 1 else 0), |l.whole|, l.Text();
      && |t| == o + k + (if |l.fraction| > 0 then 1 + |l.fraction| else 0)
      && (forall i :: 0 <= i < |t| ==> (t[i] == '-' <==> i < o))
      && (forall i :: 0 <= i < |t| ==> (t[i] == '.' <==> i == o + k))
      && (forall i :: 0 <= i < |t| ==> (IsDigit(t[i]) <==> o <= i && i != o + k))
  {
    TextLength(l);
    forall i | 0 <= i < |l.Text()|
      ensures var o, k, t := (if l.negative then 1 else 0), |l.whole|, l.Text();
        && (t[i] == '-' <==> i < o)
        && (t[i] == '.' <==> i == o + k)
        && (IsDigit(t[i]) <==> o <= i && i != o + k)
    {
      TextAt(l, i);
    }
  }

  /**
   A literal starts with a sign or a digit and has only digits and dots after
   that; it holds at most one dot, and a digit follows it.
   */
  lemma TextAlphabet(l: Literal)
    requires l.Valid()
    ensures |l.Text()| > 0
    ensures l.Text()[0] == '-' || IsDigit(l.Text()[0])
    ensures forall i :: 0 < i < |l.Text()| ==> IsDigit(l.Text()[i]) || l.Text()[i] == '.'
    ensures exists i :: 0 <= i < |l.Text()| && IsDigit(l.Text()[i])
    ensures forall i :: 0 <= i < |l.Text()| && l.Text()[i] == '.' ==>
              |l.fraction| > 0 && i == (if l.negative then 1 else 0) + |l.whole| && i + 1 < |l.Text()| && IsDigit(l.Text()[i + 1])
  {
    TextClasses(l);
    var o := if l.negative then 1 else 0;
    assert IsDigit(l.Text()[o]);
  }

  /** Two valid literals with the same text are the same literal. */
  lemma TextInjective(l: Literal, m: Literal)
    requires l.Valid() && m.Valid()
    requires l.Text() == m.Text()
    ensures l == m
  {
    TextClasses(l);
    TextClasses(m);
    var t := l.Text();
    assert l.negative == m.negative by {
      assert t[0] == '-' <==> l.negative;
    }
    var o := if l.negative then 1 else 0;
    RunEndUnique(t, o, o + |l.whole|, IsDigit);
    RunEndUnique(t, o, o + |m.whole|, IsDigit);
    forall i | 0 <= i < |l.whole|
      ensures l.whole[i] == m.whole[i]
    {
      TextAt(l, o + i);
      TextAt(m, o + i);
    }
    forall i | 0 <= i < |l.fraction|
      ensures l.fraction[i] == m.fraction[i]
    {
      TextAt(l, o + |l.whole| + 1 + i);
      TextAt(m, o + |l.whole| + 1 + i);
    }
  }

  /**
   The literal `-?\d+(?:\.\d+)?` matches at the start of `s`, if any. The minus
   sign is taken only when a digit follows it, the digit runs are greedy, and the
   fractional part is taken only when the dot is followed by a digit.
   */
  function LexPrefix(s: string): (r: Option<Literal>)
    ensures r.Some? ==> r.value.Valid() && r.value.Text() <= s
  {
    var o := if |s| > 0 && s[0] == '-' then 1 else 0;
    var j := RunEnd(s, o, IsDigit);
    if j == o then None
    else
      var e := if j + 1 < |s| && s[j] == '.' && IsDigit(s[j + 1]) then RunEnd(s, j + 1, IsDigit) else j;
      LiteralAt(s, o, j, e);
      Some(Literal(o == 1, s[o..j], if e == j then "" else s[j + 1..e]))
  }

  /**
   An optional sign at `[0, o)`, a digit run at `[o, j)` and, when `e > j`, a dot
   and a digit run at `[j + 1, e)` make a literal whose text is `s[..e]`.
   */
  lemma LiteralAt(s: string, o: nat, j: nat, e: nat)
    requires o <= 1 && (o == 1 ==> |s| > 0 && s[0] == '-')
    requires o < j <= e <= |s|
    requires forall k :: o <= k < j ==> IsDigit(s[k])
    requires e > j ==> e > j + 1 && s[j] == '.' && forall k :: j + 1 <= k < e ==> IsDigit(s[k])
    ensures var l := Literal(o == 1, s[o..j], if e == j then "" else s[j + 1..e]);
      l.Valid() && l.Text() == s[..e]
  {
    var l := Literal(o == 1, s[o..j], if e == j then "" else s[j + 1..e]);
    assert forall k :: 0 <= k < |l.whole| ==> l.whole[k] == s[o + k];
    assert forall k :: 0 <= k < |l.fraction| ==> l.fraction[k] == s[j + 1 + k];
    TextLength(l);
    forall i | 0 <= i < e
      ensures l.Text()[i] == s[i]
    {
      TextAt(l, i);
    }
  }

  /** A literal that is a prefix of `s`, read off the characters of `s`. */
  lemma PrefixLayout(s: string, l: Literal)
    requires l.Valid() && l.Text() <= s
    ensures var o, k, f := if l.negative then 1 else 0, |l.whole|, |l.fraction|;
      && |l.Text()| == o + k + (if f > 0 then 1 + f else 0)
      && (l.negative <==> s[0] == '-')
      && (forall i :: o <= i < o + k ==> IsDigit(s[i]))
      && (f > 0 ==> s[o + k] == '.' && forall i :: o + k + 1 <= i < o + k + 1 + f ==> IsDigit(s[i]))
  {
    TextClasses(l);
    var t := l.Text();
    forall i | 0 <= i < |t|
      ensures s[i] == t[i]
    {
      PrefixAt(t, s, i);
    }
  }

  /** Whenever a literal is a prefix of `s`, the lexer finds one at least as long. */
  lemma LexPrefixCovers(s: string, l: Literal)
    requires l.Valid() && l.Text() <= s
    ensures LexPrefix(s).Some? && |l.Text()| <= |LexPrefix(s).value.Text()|
  {
    PrefixLayout(s, l);
    var o, k, f := if l.negative then 1 else 0, |l.whole|, |l.fraction|;
    var j := RunEnd(s, o, IsDigit);
    assert o + k <= j;
    if f > 0 {
      assert j == o + k;
      var e := RunEnd(s, j + 1, IsDigit);
      assert j + 1 + f <= e;
    }
  }

  /**
   LexPrefix finds the longest literal that is a prefix of `s`, and finds one
   whenever any literal is a prefix of `s`.
   */
  lemma LexPrefixLongest(s: string)
    ensures LexPrefix(s).Some? ==> LexPrefix(s).value.Valid() && LexPrefix(s).value.Text() <= s
    ensures forall l: Literal :: l.Valid() && l.Text() <= s ==>
              LexPrefix(s).Some? && |l.Text()| <= |LexPrefix(s).value.Text()|
  {
    forall l: Literal | l.Valid() && l.Text() <= s
      ensures LexPrefix(s).Some? && |l.Text()| <= |LexPrefix(s).value.Text()|
    {
      LexPrefixCovers(s, l);
    }
  }

  /**
   `rest` cannot extend the literal `l`: it does not start with a digit, nor
   with a dot and a digit when `l` has no fractional part yet.
   */
  predicate Ends(l: Literal, rest: string) {
    |rest| > 0 ==>
      && !IsDigit(rest[0])
      && (rest[0] == '.' && |l.fraction| == 0 ==> |rest| == 1 || !IsDigit(rest[1]))
  }

  /** A valid literal followed by text that cannot extend it is lexed as exactly that literal. */
  lemma LexPrefixOfText(l: Literal, rest: string)
    requires l.Valid()
    requires Ends(l, rest)
    ensures LexPrefix(l.Text() + rest) == Some(l)
  {
    var s := l.Text() + rest;
    var t := l.Text();
    assert t <= s;
    LexPrefixCovers(s, l);
    var m := LexPrefix(s).value;
    var u := m.Text();
    TextAlphabet(m);
    TextAlphabet(l);
    TextClasses(l);
    PrefixAt(u, s, |t|);
    PrefixAt(u, s, |t| + 1);
    PrefixAt(u, s, (if l.negative then 1 else 0) + |l.whole|);
    assert u == s[..|u|] == t;
    TextInjective(l, m);
  }

  /** Nothing that starts with a character other than a sign or a digit is lexed. */
  lemma LexPrefixNone(s: string)
    requires |s| > 0 && !IsDigit(s[0]) && s[0] != '-'
    ensures LexPrefix(s) == None
  {
  }

  /** The characters of a prefix are those of the sequence it is a prefix of. */
  lemma PrefixAt(u: string, s: string, i: nat)
    ensures u <= s && i < |u| ==> u[i] == s[i]
  {
  }
}
