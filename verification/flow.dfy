/**
 The flow of `main` (wind_alert.py lines 104-135) once the browser has produced
 the two page sources: read the series before and after advancing to the next
 day, decide, and build the alert message. The two page sources, the
 environment and the two-decimal rendering of the peak are parameters.
 */
module Flow {
  import opened Chars
  import opened Extraction
  import opened Decision
  import opened Notify

  /** `URL`: the forecast page, linked from the alert. */
  const Url: string := Site + "jerichobch.html?site=20"

  const Site: string := "https://bigwavedave.ca/"

  const Subject: string := "Wind Alert: Model 2 exceeds threshold"

  /** `THRESHOLD` as an f-string renders it. */
  const ThresholdText: string := "10.0"

  const FirstLine: string := "Model 2 next-day forecast exceeds " + ThresholdText + " knots.\n"

  /**
   The alert text; `peakText` is the peak as `{:.2f}` renders it. It opens with
   the threshold line, carries the peak right after `Max observed: ` and closes
   with the link to the forecast page.
   */
  function AlertBody(peakText: string): (b: string)
    ensures |b| == |FirstLine| + 14 + |peakText| + 12 + |Url|
    ensures b[..|FirstLine|] == FirstLine
    ensures b[|FirstLine| + 14..|FirstLine| + 14 + |peakText|] == peakText
    ensures b[|b| - |Url|..] == Url
  {
    FirstLine + "Max observed: " + peakText + " kn.\n\nLink: " + Url
  }

  /** How a run ends. */
  datatype Outcome =
    | NoModel2After                            // nothing new after advancing: return early
    | NoAlert(peak: real)                      // the fresh peak is at most the threshold
    | Alerted(peak: real, delivery: Delivery)  // the fresh peak is above it, and the mail step ran

  /**
   One run: an alert is sent exactly when the page after advancing yields a
   non-empty series that differs from the one before it and holds a value
   strictly above the threshold; the reported peak is that series' maximum; the
   mail goes out only with both configuration values present.
   */
  function Run(beforePage: string, afterPage: string, env: Env, show: real -> string): (o: Outcome)
    ensures var after := Model2Values(afterPage);
      o.NoModel2After? <==> after == [] || after == Model2Values(beforePage)
    ensures var after := Model2Values(afterPage);
      o.Alerted? <==> after != [] && after != Model2Values(beforePage)
                      && exists i :: 0 <= i < |after| && after[i] > Threshold
    ensures var after := Model2Values(afterPage);
      !o.NoModel2After? ==> o.peak in after && forall i :: 0 <= i < |after| ==> after[i] <= o.peak
    ensures o.NoAlert? ==> o.peak <= Threshold
    ensures o.Alerted? ==> o.peak > Threshold
    ensures o.Alerted? ==> o.delivery == SendEmail(env, Subject, AlertBody(show(o.peak)))
    ensures o.Alerted? && o.delivery.Attempted? ==>
      env.alertEmail == Some(o.delivery.mail.to) && o.delivery.mail.subject == Subject
  {
    match Decide(Model2Values(beforePage), Model2Values(afterPage), Threshold)
    case NoData => NoModel2After
    case Calm(peak) => NoAlert(peak)
    case Alert(peak) => Alerted(peak, SendEmail(env, Subject, AlertBody(show(peak))))
  }

  /**
   Advancing the page without effect (the click failed, or the page did not
   change) never alerts: the series read twice from the same page is the same.
   */
  lemma UnchangedPageNeverAlerts(page: string, env: Env, show: real -> string)
    ensures Run(page, page, env, show) == NoModel2After
  {
  }

  /**
   Without both configuration values no mail is attempted, whatever the pages;
   with both, every alert attempts exactly one mail to the configured recipient.
   */
  lemma AlertAttemptsMailIffConfigured(beforePage: string, afterPage: string, env: Env, show: real -> string)
    ensures var o := Run(beforePage, afterPage, env, show);
      o.Alerted? ==> (o.delivery.Attempted? <==>
        (env.apiKey.Some? && env.apiKey.value != "" && env.alertEmail.Some? && env.alertEmail.value != ""))
  {
  }

  /** The fixed parts of the alert text hold no `<`. */
  lemma AlertBodyTagless(t: string)
    requires Tagless(t)
    ensures Tagless(AlertBody(t))
  {
    assert Tagless(Site) && Tagless("jerichobch.html?site=20");
    TaglessAppend(Site, "jerichobch.html?site=20");
    assert Tagless("Model 2 next-day forecast exceeds ") && Tagless(ThresholdText) && Tagless(" knots.\n");
    TaglessAppend("Model 2 next-day forecast exceeds ", ThresholdText);
    TaglessAppend("Model 2 next-day forecast exceeds " + ThresholdText, " knots.\n");
    assert Tagless("Max observed: ") && Tagless(" kn.\n\nLink: ");
    TaglessAppend(FirstLine, "Max observed: ");
    TaglessAppend(FirstLine + "Max observed: ", t);
    TaglessAppend(FirstLine + "Max observed: " + t, " kn.\n\nLink: ");
    TaglessAppend(FirstLine + "Max observed: " + t + " kn.\n\nLink: ", Url);
  }

  /**
   The mailed HTML has no raw line break, and as long as the rendered peak has no
   `<`, turning each `<br>` back into a line break inside the paragraph recovers
   the alert text.
   */
  lemma AlertMailCarriesBody(beforePage: string, afterPage: string, env: Env, show: real -> string)
    ensures var o := Run(beforePage, afterPage, env, show);
      o.Alerted? && o.delivery.Attempted? && Tagless(show(o.peak)) ==>
        var h := o.delivery.mail.html;
        (forall i :: 0 <= i < |h| ==> h[i] != '\n') &&
        RestoreLines(h[3..|h| - 4]) == AlertBody(show(o.peak))
  {
    var o := Run(beforePage, afterPage, env, show);
    if o.Alerted? && o.delivery.Attempted? && Tagless(show(o.peak)) {
      var body := AlertBody(show(o.peak));
      AlertBodyTagless(show(o.peak));
      HtmlBodyRoundTrip(body);
    }
  }
}
