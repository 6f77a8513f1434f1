/**
 Worked inputs for the extractor: what a few concrete list texts yield, each
 derived from the general lemmas about the scan.

 Each input text is a parameter pinned by `requires s == "..."` rather than a
 literal in the `ensures`, and the mixed list's facts are split over small
 helper lemmas (MixedValid, MixedLiteralValues, MixedListText, MixedValues).
 Both only keep the verifier from unfolding long string literals over and
 over; they add no assumption, since the pinned parameter has exactly one value.
 */
module Samples {
  import opened Chars
  import opened Literals
  import opened Scanner
  import opened Capture
  import opened Extraction

  /** A typical list: integers, negatives and decimals keep their order and exact value. */
  lemma MixedList(list: string)
    requires list == "1, -2.5, 3.0"
    ensures FindAll(list) == [Literal(false, "1", ""), Literal(true, "2", "5"), Literal(false, "3", "0")]
    ensures Values(FindAll(list)) == [1.0, -2.5, 3.0]
  {
    var ls := [Literal(false, "1", ""), Literal(true, "2", "5"), Literal(false, "3", "0")];
    MixedListText(list, ls);
    FindAllJoin(ls);
    MixedValues(ls);
  }

  lemma MixedValues(ls: seq<Literal>)
    requires ls == [Literal(false, "1", ""), Literal(true, "2", "5"), Literal(false, "3", "0")]
    ensures forall k :: 0 <= k < |ls| ==> ls[k].Valid()
    ensures Values(ls) == [1.0, -2.5, 3.0]
  {
    MixedValid(ls);
    MixedLiteralValues();
    var vs := Values(ls);
    assert vs[0] == ls[0].Value() && vs[1] == ls[1].Value() && vs[2] == ls[2].Value();
  }

  lemma MixedValid(ls: seq<Literal>)
    requires ls == [Literal(false, "1", ""), Literal(true, "2", "5"), Literal(false, "3", "0")]
    ensures forall k :: 0 <= k < |ls| ==> ls[k].Valid()
  {
    forall k | 0 <= k < |ls|
      ensures ls[k].Valid()
    {
      assert ls[k].whole != [] && forall i :: 0 <= i < |ls[k].whole| ==> ls[k].whole[i] in "123";
      assert forall i :: 0 <= i < |ls[k].fraction| ==> ls[k].fraction[i] in "05";
    }
  }

  lemma MixedLiteralValues()
    ensures Literal(false, "1", "").Value() == 1.0
    ensures Literal(true, "2", "5").Value() == -2.5
    ensures Literal(false, "3", "0").Value() == 3.0
  {
    assert DigitsValue("1") == 1;
    assert DigitsValue("2") == 2 && DigitsValue("5") == 5;
    assert DigitsValue("3") == 3 && DigitsValue("0") == 0;
  }

  lemma MixedListText(list: string, ls: seq<Literal>)
    requires list == "1, -2.5, 3.0"
    requires ls == [Literal(false, "1", ""), Literal(true, "2", "5"), Literal(false, "3", "0")]
    ensures Join(ls) == list
  {
    assert Join(ls[2..]) == "3.0";
    assert Join(ls[1..]) == "-2.5" + ", " + "3.0";
  }

  /** A dot needs a digit after it: `3.` is the integer 3. */
  lemma TrailingDot(s: string)
    requires s == "3."
    ensures FindAll(s) == [Literal(false, "3", "")]
  {
    var three := Literal(false, "3", "");
    assert FindAll(".") == [] by {
      FindAllEmptyIff(".");
    }
    assert FindAll(s) == [three] + FindAll(".") by {
      FindAllTakesLiteral(three, ".");
      assert three.Text() + "." == s;
    }
  }

  /** A dot needs a digit before it: `.5` is the integer 5. */
  lemma LeadingDot(s: string)
    requires s == ".5"
    ensures FindAll(s) == [Literal(false, "5", "")]
  {
    var five := Literal(false, "5", "");
    assert FindAll("5") == [five] by {
      FindAllSingle(five);
      assert five.Text() == "5";
    }
    assert FindAll(s) == FindAll("5") by {
      FindAllSkipsGap(".", "5");
      assert "." + "5" == s;
    }
  }

  /** There is no exponent syntax: `1e5` is the two integers 1 and 5. */
  lemma NoExponent(s: string)
    requires s == "1e5"
    ensures FindAll(s) == [Literal(false, "1", ""), Literal(false, "5", "")]
  {
    var one := Literal(false, "1", "");
    var five := Literal(false, "5", "");
    var rest := "e5";
    assert FindAll(rest) == [five] by {
      FindAllSingle(five);
      assert five.Text() == "5";
      FindAllSkipsGap("e", "5");
      assert "e" + "5" == rest;
    }
    assert FindAll(s) == [one] + FindAll(rest) by {
      FindAllTakesLiteral(one, rest);
      assert one.Text() + rest == s;
    }
  }

  /** A minus sign right before digits always starts a new, negative literal: `5-3` is 5 and -3. */
  lemma MinusStartsLiteral(s: string)
    requires s == "5-3"
    ensures FindAll(s) == [Literal(false, "5", ""), Literal(true, "3", "")]
  {
    var five := Literal(false, "5", "");
    var minusThree := Literal(true, "3", "");
    var rest := "-3";
    assert FindAll(rest) == [minusThree] by {
      FindAllSingle(minusThree);
      assert minusThree.Text() == rest;
    }
    assert FindAll(s) == [five] + FindAll(rest) by {
      FindAllTakesLiteral(five, rest);
      assert five.Text() + rest == s;
    }
  }

  /**
   Markup before the key that holds no match of its own is skipped: the leftmost
   match is captured wherever it starts. Text before the key that does open an
   earlier match would change what is captured.
   */
  lemma MarkupBeforeKey(s: string)
    requires s == "x;model2=[7]"
    ensures Captured(s) == Some("7")
  {
    assert MatchWith(s, 2, 8, 9, 11);
    assert forall q': nat, o: nat, c: nat :: q' < 2 ==> !IsMatch(s, q', o, c) by {
      assert s[0] == 'x' && s[1] == ';' && Key[0] == 'm';
      assert !KeyAt(s, 0) && !KeyAt(s, 1);
    }
    CapturedLeftmost(s, 2, 9, 11);
    assert s[10..11] == "7";
  }
}
