/**
 `re.findall(r"-?\d+(?:\.\d+)?", text)` (wind_alert.py line 51): the literals of
 a text, found left to right, each one the longest literal at its position,
 the search resuming right after a match.
 */
module Scanner {
  import opened Chars
  import opened Literals

  function FindAll(s: string): (ls: seq<Literal>)
    ensures forall k :: 0 <= k < |ls| ==> ls[k].Valid()
    decreases |s|
  {
    if |s| == 0 then []
    else
      match LexPrefix(s)
      case Some(l) => [l] + FindAll(s[|l.Text()|..])
      case None => FindAll(s[1..])
  }

  /** Literals written as the elements of an array: separated by ", ". */
  function Join(ls: seq<Literal>): (s: string)
  {
    if |ls| == 0 then ""
    else if |ls| == 1 then ls[0].Text()
    else ls[0].Text() + ", " + Join(ls[1..])
  }

  /**
   A literal followed by text that cannot extend it is found as it is, and the
   search continues right after it.
   */
  lemma FindAllTakesLiteral(l: Literal, rest: string)
    requires l.Valid()
    requires Ends(l, rest)
    ensures FindAll(l.Text() + rest) == [l] + FindAll(rest)
  {
    var s := l.Text() + rest;
    LexPrefixOfText(l, rest);
    TextAlphabet(l);
    assert s[|l.Text()|..] == rest;
  }

  /** A text that is one literal yields exactly that literal. */
  lemma FindAllSingle(l: Literal)
    requires l.Valid()
    ensures FindAll(l.Text()) == [l]
  {
    FindAllTakesLiteral(l, "");
    assert l.Text() + "" == l.Text();
  }

  /** Characters that are neither digits nor minus signs are skipped. */
  lemma {:induction false} FindAllSkipsGap(g: string, rest: string)
    requires forall i :: 0 <= i < |g| ==> !IsDigit(g[i]) && g[i] != '-'
    ensures FindAll(g + rest) == FindAll(rest)
    decreases |g|
  {
    if |g| > 0 {
      var s := g + rest;
      LexPrefixNone(s);
      assert s[1..] == g[1..] + rest;
      FindAllSkipsGap(g[1..], rest);
    } else {
      assert g + rest == rest;
    }
  }

  /** The scan finds nothing exactly when the text holds no digit. */
  lemma {:induction false} FindAllEmptyIff(s: string)
    ensures FindAll(s) == [] <==> forall i :: 0 <= i < |s| ==> !IsDigit(s[i])
    decreases |s|
  {
    if |s| > 0 {
      LexPrefixLongest(s);
      match LexPrefix(s)
      case Some(l) =>
        TextAlphabet(l);
        var i :| 0 <= i < |l.Text()| && IsDigit(l.Text()[i]);
        PrefixAt(l.Text(), s, i);
      case None =>
        var one := Literal(false, [s[0]], "");
        assert one.Text() == [s[0]];
        assert !IsDigit(s[0]);
        FindAllEmptyIff(s[1..]);
        assert forall i :: 1 <= i < |s| ==> s[i] == s[1..][i - 1];
    }
  }

  /** A literal, then the separator `, `, then anything: the literal comes first. */
  lemma FindAllSeparated(l: Literal, tail: string)
    requires l.Valid()
    ensures FindAll(l.Text() + ", " + tail) == [l] + FindAll(tail)
  {
    var gap := ", " + tail;
    assert l.Text() + ", " + tail == l.Text() + gap;
    assert FindAll(l.Text() + gap) == [l] + FindAll(gap) by {
      assert gap[0] == ',';
      FindAllTakesLiteral(l, gap);
    }
    FindAllSkipsGap(", ", tail);
  }

  /** Scanning the rendering of a list of literals gives back that list. */
  lemma {:induction false} FindAllJoin(ls: seq<Literal>)
    requires forall k :: 0 <= k < |ls| ==> ls[k].Valid()
    ensures FindAll(Join(ls)) == ls
    decreases |ls|
  {
    if |ls| == 1 {
      FindAllSingle(ls[0]);
    } else if |ls| > 1 {
      var tail := Join(ls[1..]);
      FindAllSeparated(ls[0], tail);
      FindAllJoin(ls[1..]);
      assert [ls[0]] + ls[1..] == ls;
    }
  }
}
