/**
 `re.search(r"model2\s*=\s*\[([^\]]+)\]", html, re.IGNORECASE | re.DOTALL)`
 (wind_alert.py line 49): the leftmost place in the page where the key, an
 equals sign and a non-empty bracketed list occur, and the text inside the
 brackets (group 1).
 */
module Capture {
  import opened Chars

  const Key: string := "model2"

  lemma KeyIsLowerCase()
    ensures forall i :: 0 <= i < |Key| ==> Lower(Key[i]) == Key[i]
  {
    assert Key[0] == 'm' && Key[1] == 'o' && Key[2] == 'd' && Key[3] == 'e' && Key[4] == 'l' && Key[5] == '2';
  }

  /** The key occurs at `p`, ignoring case. */
  predicate KeyAt(s: string, p: nat) {
    && p + |Key| <= |s|
    && forall i :: 0 <= i < |Key| ==> Lower(s[p + i]) == Key[i]
  }

  predicate SpaceBetween(s: string, i: nat, j: nat)
    requires i <= j <= |s|
  {
    forall k :: i <= k < j ==> IsSpace(s[k])
  }

  /**
   A match of the whole expression at `p` whose `=` is at `eq`, with `[` at
   `open` and `]` at `close`.
   */
  predicate MatchWith(s: string, p: nat, eq: nat, open: nat, close: nat) {
    && KeyAt(s, p)
    && p + |Key| <= eq < open < close < |s|
    && SpaceBetween(s, p + |Key|, eq)
    && s[eq] == '='
    && SpaceBetween(s, eq + 1, open)
    && s[open] == '['
    && open + 1 < close
    && s[close] == ']'
    && (forall k :: open < k < close ==> s[k] != ']')
  }

  /** A match of the whole expression at `p`, with `[` at `open` and `]` at `close`. */
  ghost predicate IsMatch(s: string, p: nat, open: nat, close: nat) {
    exists eq: nat :: MatchWith(s, p, eq, open, close)
  }

  /** Where a match sits: the key at `start`, the brackets at `open` and `close`. */
  datatype Span = Span(start: nat, open: nat, close: nat)

  /**
   The expression anchored at `p`. The greedy `\s*` runs and `[^\]]+` never
   need to give characters back: the character that ends each run is the only
   one that can continue the match.
   */
  function MatchAt(s: string, p: nat): (r: Option<Span>)
    ensures r.Some? ==> r.value.start == p && KeyAt(s, p)
    ensures r.Some? ==> p + |Key| < r.value.open && r.value.open + 1 < r.value.close < |s|
    ensures r.Some? ==> s[r.value.open] == '[' && s[r.value.close] == ']'
    ensures r.Some? ==> forall k :: r.value.open < k < r.value.close ==> s[k] != ']'
  {
    if !KeyAt(s, p) then None
    else
      var eq := RunEnd(s, p + |Key|, IsSpace);
      if eq == |s| || s[eq] != '=' then None
      else
        var open := RunEnd(s, eq + 1, IsSpace);
        if open == |s| || s[open] != '[' then None
        else
          var close := RunEnd(s, open + 1, NotClose);
          if close == open + 1 || close == |s| then None
          else Some(Span(p, open, close))
  }

  /** Every match the expression has at `p` is the one MatchAt returns. */
  lemma MatchAtComplete(s: string, p: nat, open: nat, close: nat)
    requires IsMatch(s, p, open, close)
    ensures MatchAt(s, p) == Some(Span(p, open, close))
  {
    var eq: nat :| MatchWith(s, p, eq, open, close);
    assert RunEnd(s, p + |Key|, IsSpace) == eq by {
      RunEndUnique(s, p + |Key|, eq, IsSpace);
    }
    assert RunEnd(s, eq + 1, IsSpace) == open by {
      RunEndUnique(s, eq + 1, open, IsSpace);
    }
    assert RunEnd(s, open + 1, NotClose) == close by {
      RunEndUnique(s, open + 1, close, NotClose);
    }
  }

  /** What MatchAt returns is a match of the expression at `p`. */
  lemma MatchAtSound(s: string, p: nat)
    requires MatchAt(s, p).Some?
    ensures var m := MatchAt(s, p).value; m.start == p && IsMatch(s, p, m.open, m.close)
  {
    var m := MatchAt(s, p).value;
    var eq := RunEnd(s, p + |Key|, IsSpace);
    assert MatchWith(s, p, eq, m.open, m.close);
  }

  /** MatchAt finds exactly the match the expression has at `p`, when it has one. */
  lemma MatchAtExact(s: string, p: nat)
    ensures forall open: nat, close: nat :: IsMatch(s, p, open, close) <==> MatchAt(s, p) == Some(Span(p, open, close))
  {
    if MatchAt(s, p).Some? {
      MatchAtSound(s, p);
    }
    forall open: nat, close: nat | IsMatch(s, p, open, close)
      ensures MatchAt(s, p) == Some(Span(p, open, close))
    {
      MatchAtComplete(s, p, open, close);
    }
  }

  /**
   The leftmost match at or after `p`: the match found is a real one, and no
   position between `p` and it starts a match.
   */
  function Search(s: string, p: nat): (r: Option<Span>)
    requires p <= |s|
    ensures r.Some? ==> p <= r.value.start && IsMatch(s, r.value.start, r.value.open, r.value.close)
    ensures forall q: nat, open: nat, close: nat :: p <= q && IsMatch(s, q, open, close) ==> r.Some? && r.value.start <= q
    decreases |s| - p
  {
    MatchAtExact(s, p);
    if p == |s| then None
    else
      match MatchAt(s, p)
      case Some(m) => Some(m)
      case None => Search(s, p + 1)
  }

  /** The text strictly between the brackets of a span. */
  function Group(s: string, m: Span): (g: string)
    requires m.open < m.close <= |s|
    ensures |g| == m.close - m.open - 1
    ensures forall k :: 0 <= k < |g| ==> g[k] == s[m.open + 1 + k]
  {
    s[m.open + 1..m.close]
  }

  /**
   Group 1 of the leftmost match: the text strictly between the brackets. It is
   absent exactly when the page holds no match anywhere; when present it is
   non-empty and holds no `]`.
   */
  function Captured(s: string): (c: Option<string>)
    ensures c.None? <==> forall q: nat, open: nat, close: nat :: !IsMatch(s, q, open, close)
    ensures c.Some? ==> |c.value| > 0 && forall k :: 0 <= k < |c.value| ==> c.value[k] != ']'
  {
    match Search(s, 0)
    case Some(m) => Some(Group(s, m))
    case None => None
  }

  /**
   Group 1 is the text between the brackets of the leftmost match, wherever in
   the page that match starts.
   */
  lemma CapturedLeftmost(s: string, q: nat, open: nat, close: nat)
    requires IsMatch(s, q, open, close)
    requires forall q': nat, o: nat, c: nat :: q' < q ==> !IsMatch(s, q', o, c)
    ensures Captured(s) == Some(s[open + 1..close])
  {
    var r := Search(s, 0);
    assert r.Some? && r.value.start <= q;
    var m := r.value;
    assert IsMatch(s, m.start, m.open, m.close);
    assert m.start == q;
    MatchAtExact(s, q);
    assert m == Span(q, open, close);
    assert Captured(s) == Some(Group(s, m));
    assert Group(s, m) == s[open + 1..close];
  }

  /** Whether a match ends inside `s` does not depend on what follows `s`. */
  lemma MatchLocal(s: string, tail: string, q: nat, open: nat, close: nat)
    requires close < |s|
    ensures IsMatch(s + tail, q, open, close) <==> IsMatch(s, q, open, close)
  {
    var u := s + tail;
    assert forall k :: 0 <= k < |s| ==> u[k] == s[k];
    if IsMatch(u, q, open, close) {
      var eq: nat :| MatchWith(u, q, eq, open, close);
      assert MatchWith(s, q, eq, open, close);
    }
    if IsMatch(s, q, open, close) {
      var eq: nat :| MatchWith(s, q, eq, open, close);
      assert MatchWith(u, q, eq, open, close);
    }
  }

  /**
   Two matches cannot interleave: the key has no overlap with itself and none
   of its characters can stand between a key and its `[`, so a match starting
   earlier closes no later than one starting after it.
   */
  lemma EarlierMatchClosesFirst(u: string, q: nat, o1: nat, c1: nat, p: nat, o2: nat, c2: nat)
    requires IsMatch(u, q, o1, c1) && IsMatch(u, p, o2, c2)
    requires q < p
    ensures c1 <= c2
  {
    var eq: nat :| MatchWith(u, q, eq, o1, c1);
    assert forall k :: q + |Key| <= k <= o1 ==> u[k] == '=' || u[k] == '[' || IsSpace(u[k]);
    assert Key == ['m', 'o', 'd', 'e', 'l', '2'];
    assert Lower(u[p + 0]) == Key[0] == 'm';
    assert forall i :: 1 <= i < |Key| ==> Key[i] != 'm';
    assert forall c: char :: Lower(c) == 'm' ==> c == 'm' || c == 'M';
    assert !IsSpace('m') && !IsSpace('M');
    assert forall k :: q < k < q + |Key| ==> Lower(u[k]) != 'm' by {
      forall k | q < k < q + |Key|
        ensures Lower(u[k]) != 'm'
      {
        assert Lower(u[q + (k - q)]) == Key[k - q];
      }
    }
    assert o1 < p;
  }

  /**
   Only the first match counts: once a page holds a match, appending text to
   it never changes which match is found.
   */
  lemma FirstMatchWins(s: string, tail: string)
    requires Search(s, 0).Some?
    ensures Search(s + tail, 0) == Search(s, 0)
  {
    var u := s + tail;
    var m := Search(s, 0).value;
    MatchLocal(s, tail, m.start, m.open, m.close);
    var r := Search(u, 0).value;
    assert r.start == m.start by {
      if r.start < m.start {
        EarlierMatchClosesFirst(u, r.start, r.open, r.close, m.start, m.open, m.close);
        MatchLocal(s, tail, r.start, r.open, r.close);
      }
    }
    MatchAtExact(u, m.start);
  }

  /** Appending text to a page that holds a match leaves the captured text unchanged. */
  lemma CapturedIgnoresLaterText(s: string, tail: string)
    requires Captured(s).Some?
    ensures Captured(s + tail) == Captured(s)
  {
    var m := Search(s, 0).value;
    var u := s + tail;
    FirstMatchWins(s, tail);
    assert Captured(u) == Some(Group(u, m));
    assert Group(u, m) == Group(s, m);
  }

  /** A page made of the key, white space, `=`, white space and a bracketed list, then anything. */
  function KeyedPage(key: string, ws1: string, ws2: string, list: string, tail: string): (s: string)
  {
    key + ws1 + "=" + ws2 + "[" + list + "]" + tail
  }

  /** The characters of `x + y`: those of `x`, then those of `y`. */
  lemma Append(x: string, y: string)
    ensures forall i :: 0 <= i < |x| ==> (x + y)[i] == x[i]
    ensures forall i :: |x| <= i < |x| + |y| ==> (x + y)[i] == y[i - |x|]
  {
  }

  /** Where each part of a keyed page sits. */
  lemma KeyedPageLayout(key: string, ws1: string, ws2: string, list: string, tail: string)
    ensures var s := KeyedPage(key, ws1, ws2, list, tail);
      var eq := |key| + |ws1|;
      var open := eq + 1 + |ws2|;
      var close := open + 1 + |list|;
      && |s| == close + 1 + |tail|
      && (forall i :: 0 <= i < |key| ==> s[i] == key[i])
      && (forall i :: |key| <= i < eq ==> s[i] == ws1[i - |key|])
      && s[eq] == '='
      && (forall i :: eq < i < open ==> s[i] == ws2[i - eq - 1])
      && s[open] == '['
      && (forall i :: open < i < close ==> s[i] == list[i - open - 1])
      && s[close] == ']'
      && s[open + 1..close] == list
  {
    var p1 := key + ws1;
    Append(key, ws1);
    var p2 := p1 + "=";
    Append(p1, "=");
    var p3 := p2 + ws2;
    Append(p2, ws2);
    var p4 := p3 + "[";
    Append(p3, "[");
    var p5 := p4 + list;
    Append(p4, list);
    var p6 := p5 + "]";
    Append(p5, "]");
    Append(p6, tail);
  }

  /** A keyed page matches at its start, whatever follows the list. */
  lemma KeyedPageMatches(key: string, ws1: string, ws2: string, list: string, tail: string)
    requires |key| == |Key| && forall i :: 0 <= i < |key| ==> Lower(key[i]) == Key[i]
    requires forall i :: 0 <= i < |ws1| ==> IsSpace(ws1[i])
    requires forall i :: 0 <= i < |ws2| ==> IsSpace(ws2[i])
    requires |list| > 0 && forall i :: 0 <= i < |list| ==> list[i] != ']'
    ensures var open := |key| + |ws1| + 1 + |ws2|;
      IsMatch(KeyedPage(key, ws1, ws2, list, tail), 0, open, open + 1 + |list|)
  {
    var s := KeyedPage(key, ws1, ws2, list, tail);
    var eq := |key| + |ws1|;
    var open := eq + 1 + |ws2|;
    KeyedPageLayout(key, ws1, ws2, list, tail);
    assert SpaceBetween(s, |Key|, eq);
    assert SpaceBetween(s, eq + 1, open);
    assert MatchWith(s, 0, eq, open, open + 1 + |list|);
  }

  /**
   Case-insensitive key, then the first bracketed list: a keyed page captures
   exactly its list, and nothing of what follows the closing bracket.
   */
  lemma CapturedKeyedPage(key: string, ws1: string, ws2: string, list: string, tail: string)
    requires |key| == |Key| && forall i :: 0 <= i < |key| ==> Lower(key[i]) == Key[i]
    requires forall i :: 0 <= i < |ws1| ==> IsSpace(ws1[i])
    requires forall i :: 0 <= i < |ws2| ==> IsSpace(ws2[i])
    requires |list| > 0 && forall i :: 0 <= i < |list| ==> list[i] != ']'
    ensures Captured(KeyedPage(key, ws1, ws2, list, tail)) == Some(list)
  {
    var s := KeyedPage(key, ws1, ws2, list, tail);
    var open := |key| + |ws1| + 1 + |ws2|;
    KeyedPageMatches(key, ws1, ws2, list, tail);
    var m := Search(s, 0).value;
    MatchAtExact(s, 0);
    assert m == Span(0, open, open + 1 + |list|);
    assert Captured(s) == Some(Group(s, m));
    assert Group(s, m) == list by {
      KeyedPageLayout(key, ws1, ws2, list, tail);
    }
  }
}
