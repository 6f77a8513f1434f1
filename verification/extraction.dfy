/**
 `get_model2_values` (wind_alert.py lines 46-55) on the page source: the
 numbers inside the first `model2 = [...]` of the page, as exact decimals, or
 nothing when the page holds no such list.
 */
module Extraction {
  import opened Chars
  import opened Literals
  import opened Scanner
  import opened Capture

  function Values(ls: seq<Literal>): (vs: seq<real>)
    requires forall k :: 0 <= k < |ls| ==> ls[k].Valid()
    ensures |vs| == |ls|
    ensures forall k :: 0 <= k < |ls| ==> vs[k] == ls[k].Value()
  {
    if |ls| == 0 then [] else [ls[0].Value()] + Values(ls[1..])
  }

  /**
   The series read from a page. It never fails: a page without a match, or
   whose list holds no digit, gives the empty series.
   */
  function Model2Values(page: string): (vs: seq<real>)
    ensures vs == [] <==> Captured(page).None? || forall i :: 0 <= i < |Captured(page).value| ==> !IsDigit(Captured(page).value[i])
  {
    match Captured(page)
    case None => []
    case Some(c) =>
      FindAllEmptyIff(c);
      Values(FindAll(c))
  }

  /**
   A page that starts with the key in any letter case, optional white space, `=`,
   optional white space and a non-empty bracketed list yields the numbers of that
   list; nothing after the closing bracket is read.
   */
  lemma Model2ValuesAtKey(key: string, ws1: string, ws2: string, list: string, tail: string)
    requires |key| == |Key| && forall i :: 0 <= i < |key| ==> Lower(key[i]) == Key[i]
    requires forall i :: 0 <= i < |ws1| ==> IsSpace(ws1[i])
    requires forall i :: 0 <= i < |ws2| ==> IsSpace(ws2[i])
    requires |list| > 0 && forall i :: 0 <= i < |list| ==> list[i] != ']'
    ensures Model2Values(KeyedPage(key, ws1, ws2, list, tail)) == Values(FindAll(list))
  {
    CapturedKeyedPage(key, ws1, ws2, list, tail);
  }

  /** A page written as `model2 = [...]`: lower-case key, single spaces around `=`. */
  lemma PlainKeyedPage(list: string)
    ensures KeyedPage(Key, " ", " ", list, "") == "model2 = [" + list + "]"
  {
  }

  /**
   `[^\]]+` needs at least one character: a page whose every `[` is directly
   closed, such as `model2 = []`, yields the empty series.
   */
  lemma EmptyListsYieldNothing(page: string)
    requires forall i :: 0 <= i < |page| - 1 && page[i] == '[' ==> page[i + 1] == ']'
    ensures Model2Values(page) == []
  {
  }

  /** Whatever follows the first match in a page does not change the series. */
  lemma Model2ValuesIgnoresLaterText(page: string, tail: string)
    requires Captured(page).Some?
    ensures Model2Values(page + tail) == Model2Values(page)
  {
    CapturedIgnoresLaterText(page, tail);
  }

  lemma {:induction false} JoinAlphabet(ls: seq<Literal>)
    requires forall k :: 0 <= k < |ls| ==> ls[k].Valid()
    ensures |ls| > 0 ==> |Join(ls)| > 0
    ensures forall i :: 0 <= i < |Join(ls)| ==> Join(ls)[i] != ']'
    decreases |ls|
  {
    if |ls| > 0 {
      TextAlphabet(ls[0]);
      var t := ls[0].Text();
      assert forall i :: 0 <= i < |t| ==> t[i] != ']';
      if |ls| > 1 {
        JoinAlphabet(ls[1..]);
        var j := Join(ls[1..]);
        assert Join(ls) == t + ", " + j;
        assert forall i :: 0 <= i < |j| ==> (t + ", " + j)[|t| + 2 + i] == j[i];
      }
    }
  }

  /**
   Round trip: a page that declares `model2 = [...]` with any list of literals,
   separated by `, `, yields exactly their values. The empty list `[]` is no
   match at all, and yields the empty series too.
   */
  lemma Model2ValuesRoundTrip(ls: seq<Literal>)
    requires forall k :: 0 <= k < |ls| ==> ls[k].Valid()
    ensures Model2Values("model2 = [" + Join(ls) + "]") == Values(ls)
  {
    var list := Join(ls);
    var page := "model2 = [" + list + "]";
    if |ls| == 0 {
      EmptyBrackets(list);
    } else {
      JoinAlphabet(ls);
      KeyIsLowerCase();
      SpacedList(list, page);
      FindAllJoin(ls);
    }
  }

  /**
   `model2 = []`: `[^\]]+` needs one character, so there is no match. The empty
   list is a parameter pinned by `requires list == ""` rather than a literal page
   only to keep the verifier from unfolding the string literal; it has exactly
   one value, so nothing is assumed.
   */
  lemma EmptyBrackets(list: string)
    requires list == ""
    ensures Model2Values("model2 = [" + list + "]") == []
  {
    var page := "model2 = [" + list + "]";
    assert page == "model2 = []";
    EmptyListsYieldNothing(page);
  }

  /** A non-empty list without `]`, written after the key with single spaces around `=`. */
  lemma SpacedList(list: string, page: string)
    requires |list| > 0 && forall i :: 0 <= i < |list| ==> list[i] != ']'
    requires page == "model2 = [" + list + "]"
    ensures Model2Values(page) == Values(FindAll(list))
  {
    PlainKeyedPage(list);
    KeyIsLowerCase();
    assert forall i :: 0 <= i < |" "| ==> IsSpace(" "[i]);
    Model2ValuesAtKey(Key, " ", " ", list, "");
  }
}
