/**
 `send_email` (wind_alert.py lines 74-93) without the delivery call: the guard
 on the two configuration values, and the message it would hand to the mail
 provider, whose HTML content is the body with each line break as `<br>`.
 */
module Notify {
  import opened Chars

  /** The fixed sender address. */
  const Sender: string := "alert@windforecast.com"

  /** The two environment variables read, `None` when unset. */
  datatype Env = Env(apiKey: Option<string>, alertEmail: Option<string>)

  datatype Mail = Mail(from: string, to: string, subject: string, html: string)

  /** What `send_email` does: nothing, or one delivery attempt with this key and message. */
  datatype Delivery = Skipped | Attempted(apiKey: string, mail: Mail)

  function Count(s: string, c: char): (n: nat)
    ensures n <= |s|
  {
    if |s| == 0 then 0 else (if s[0] == c then 1 else 0) + Count(s[1..], c)
  }

  /** `body.replace(chr(10), '<br>')`. */
  function BreakLines(s: string): (r: string)
    ensures forall i :: 0 <= i < |r| ==> r[i] != '\n'
    ensures |r| == |s| + 3 * Count(s, '\n')
  {
    if |s| == 0 then ""
    else (if s[0] == '\n' then "<br>" else [s[0]]) + BreakLines(s[1..])
  }

  /** The reverse rewriting: every `<br>` back to a line break. */
  function RestoreLines(r: string): (s: string)
    decreases |r|
  {
    if |r| == 0 then ""
    else if |r| >= 4 && r[..4] == "<br>" then "\n" + RestoreLines(r[4..])
    else [r[0]] + RestoreLines(r[1..])
  }

  /** Text in which no `<` occurs, so no `<br>` either. */
  predicate Tagless(s: string)
  {
    forall i :: 0 <= i < |s| ==> s[i] != '<'
  }

  lemma TaglessAppend(a: string, b: string)
    requires Tagless(a) && Tagless(b)
    ensures Tagless(a + b)
  {
    forall i | 0 <= i < |a + b| ensures (a + b)[i] != '<' {
      if i >= |a| {
        assert (a + b)[i] == b[i - |a|];
      }
    }
  }

  /** Text without line breaks is left as it is. */
  lemma {:induction false} BreakLinesKeepsPlainText(s: string)
    requires forall i :: 0 <= i < |s| ==> s[i] != '\n'
    ensures BreakLines(s) == s
    decreases |s|
  {
    if |s| > 0 {
      BreakLinesKeepsPlainText(s[1..]);
      assert [s[0]] + s[1..] == s;
    }
  }

  /** The rewriting works line by line: it distributes over concatenation. */
  lemma {:induction false} BreakLinesAppend(a: string, b: string)
    ensures BreakLines(a + b) == BreakLines(a) + BreakLines(b)
    decreases |a|
  {
    if |a| == 0 {
      assert a + b == b;
    } else {
      assert (a + b)[0] == a[0];
      assert (a + b)[1..] == a[1..] + b;
      BreakLinesAppend(a[1..], b);
    }
  }

  /**
   For a body in which no `<` occurs, the rewriting loses nothing: turning each
   `<br>` back into a line break gives the body back.
   */
  lemma {:induction false} RestoreBreakLines(s: string)
    requires Tagless(s)
    ensures RestoreLines(BreakLines(s)) == s
    decreases |s|
  {
    if |s| > 0 {
      var r := BreakLines(s);
      RestoreBreakLines(s[1..]);
      if s[0] == '\n' {
        assert r == "<br>" + BreakLines(s[1..]);
        assert r[..4] == "<br>";
        assert r[4..] == BreakLines(s[1..]);
      } else {
        assert r == [s[0]] + BreakLines(s[1..]);
        assert r[0] == s[0];
        assert |r| >= 4 ==> r[..4][0] == s[0];
        assert r[1..] == BreakLines(s[1..]);
      }
      assert [s[0]] + s[1..] == s;
    }
  }

  /** `f"<p>{body.replace(chr(10), '<br>')}</p>"`: one paragraph, no line breaks left. */
  function HtmlBody(body: string): (h: string)
    ensures |h| == 7 + |body| + 3 * Count(body, '\n')
    ensures h[..3] == "<p>" && h[|h| - 4..] == "</p>"
    ensures forall i :: 0 <= i < |h| ==> h[i] != '\n'
  {
    var h := "<p>" + BreakLines(body) + "</p>";
    assert h[..3] == "<p>";
    assert h[|h| - 4..] == "</p>";
    h
  }

  /** Between the paragraph tags sits the rewritten body, and nothing else. */
  lemma HtmlBodyRoundTrip(body: string)
    requires Tagless(body)
    ensures var h := HtmlBody(body); RestoreLines(h[3..|h| - 4]) == body
  {
    var h := HtmlBody(body);
    assert h[3..|h| - 4] == BreakLines(body);
    RestoreBreakLines(body);
  }

  /**
   A message is attempted only when both the API key and the recipient are set
   and non-empty; it goes from the fixed sender to that recipient, with the HTML
   form of the body.
   */
  function SendEmail(env: Env, subject: string, body: string): (d: Delivery)
    ensures d.Attempted? <==> (env.apiKey.Some? && env.apiKey.value != "" && env.alertEmail.Some? && env.alertEmail.value != "")
    ensures d.Attempted? ==> d.apiKey == env.apiKey.value
    ensures d.Attempted? ==> d.mail.from == Sender && d.mail.to == env.alertEmail.value && d.mail.subject == subject
    ensures d.Attempted? ==> d.mail.html == HtmlBody(body)
  {
    match (env.apiKey, env.alertEmail)
    case (Some(key), Some(to)) =>
      if key == "" || to == "" then Skipped
      else Attempted(key, Mail(Sender, to, subject, HtmlBody(body)))
    case _ => Skipped
  }
}
