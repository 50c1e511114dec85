/** The daily entry form: the blood-pressure check the save button applies,
    the requests the page issues for a date, and the save decision. */
module Entry {
  import opened Strings

  /** The end of the run of digits that starts at position i of s. */
  function DigitRun(s: string, i: nat): (j: nat)
    requires i <= |s|
    ensures i <= j <= |s| && AllDigits(s[i..j])
    ensures j < |s| ==> !IsDigit(s[j])
    decreases |s| - i
  {
    if i < |s| && IsDigit(s[i]) then
      var j := DigitRun(s, i + 1);
      assert s[i..j] == [s[i]] + s[i + 1..j];
      j
    else i
  }

  /** `validateBloodPressure`: the pattern `^\d{2,3}\/\d{2,3}$` tested on the
      whole field. A `\d` run is always followed by '/' or the end, so each
      repetition takes the whole run of digits: 2 or 3 digits, a slash, 2 or
      3 digits, and nothing else. */
  predicate ValidBloodPressure(s: string) {
    var j := DigitRun(s, 0);
    2 <= j <= 3 && j < |s| && s[j] == '/'
    && var k := DigitRun(s, j + 1);
    2 <= k - (j + 1) <= 3 && k == |s|
  }

  /** s splits at position p into a systolic and a diastolic reading. */
  predicate ReadingSplit(s: string, p: int) {
    && 0 <= p < |s| && s[p] == '/'
    && 2 <= p <= 3 && 2 <= |s| - (p + 1) <= 3
    && AllDigits(s[..p]) && AllDigits(s[p + 1..])
  }

  /** The accepted readings: 2 or 3 digits, '/', 2 or 3 digits. */
  ghost predicate IsReading(s: string) {
    exists p :: ReadingSplit(s, p)
  }

  /** A run of digits that stops at the end or at a non-digit is what DigitRun finds. */
  lemma {:induction false} DigitRunStops(s: string, i: nat, j: nat)
    requires i <= j <= |s| && AllDigits(s[i..j]) && (j < |s| ==> !IsDigit(s[j]))
    ensures DigitRun(s, i) == j
    decreases j - i
  {
    if i < j {
      assert IsDigit(s[i..j][0]);
      assert s[i + 1..j] == s[i..j][1..];
      DigitRunStops(s, i + 1, j);
    }
  }

  /** The check accepts a string exactly when it is a reading. */
  lemma ValidBloodPressureIff(s: string)
    ensures ValidBloodPressure(s) <==> IsReading(s)
  {
    if ValidBloodPressure(s) {
      var p := DigitRun(s, 0);
      assert s[..p] == s[0..p];
      assert s[p + 1..] == s[p + 1..DigitRun(s, p + 1)];
      assert ReadingSplit(s, p);
    }
    if IsReading(s) {
      var p :| ReadingSplit(s, p);
      assert s[0..p] == s[..p];
      DigitRunStops(s, 0, p);
      assert !IsDigit(s[p]);
      assert s[p + 1..|s|] == s[p + 1..];
      DigitRunStops(s, p + 1, |s|);
    }
  }

  /** Every pair of 2- or 3-digit numbers written around a slash is accepted. */
  lemma AcceptsEveryReading(a: string, b: string)
    requires 2 <= |a| <= 3 && 2 <= |b| <= 3 && AllDigits(a) && AllDigits(b)
    ensures ValidBloodPressure(a + "/" + b)
  {
    var s := a + "/" + b;
    assert s[..|a|] == a && s[|a| + 1..] == b;
    assert ReadingSplit(s, |a|);
    ValidBloodPressureIff(s);
  }

  /** The reading the pattern's own comment gives is accepted. */
  lemma AcceptsExample()
    ensures ValidBloodPressure("120/80")
  {
    AcceptsEveryReading("120", "80");
  }

  /** Turned away: a four-digit systolic value, a dash instead of the slash,
      one-digit values. */
  lemma RejectsExamples()
    ensures !ValidBloodPressure("1200/80")
    ensures !ValidBloodPressure("120-80")
    ensures !ValidBloodPressure("5/5")
  {
    assert DigitRun("1200/80", 0) == 4 by {
      DigitRunStops("1200/80", 0, 4);
    }
    assert DigitRun("120-80", 0) == 3 by {
      DigitRunStops("120-80", 0, 3);
    }
    assert DigitRun("5/5", 0) == 1 by {
      DigitRunStops("5/5", 0, 1);
    }
  }

  datatype Verb = Get | Post

  /** The saved fields; the CSRF token the form also carries is not modelled. */
  datatype Form = Form(bloodPressure: string, glucoseLevel: string)

  datatype Request = Request(verb: Verb, url: string, form: Option<Form>)

  /** What pressing "save" does: show the blood-pressure error and send
      nothing, or hide it and send one request. */
  datatype SaveOutcome = ShowError | Submit(request: Request)

  const EntriesPrefix: string := "/entries/"
  const SavePrefix: string := "/save-entry/"

  /** `'/entries/' + date + '/'`. */
  function EntriesUrl(date: string): string {
    EntriesPrefix + date + "/"
  }

  /** `'/save-entry/' + date + '/'`. */
  function SaveUrl(date: string): string {
    SavePrefix + date + "/"
  }

  /** The date path segment of a URL that starts with prefix and ends in '/'. */
  function UrlDate(prefix: string, url: string): (r: Option<string>)
    ensures r.Some? ==> url == prefix + r.value + "/"
  {
    if |url| >= |prefix| + 1 && url[..|prefix|] == prefix && url[|url| - 1] == '/' then
      var date := url[|prefix|..|url| - 1];
      assert url == url[..|prefix|] + date + [url[|url| - 1]];
      Some(date)
    else None
  }

  /** The date a save URL names: the inverse of SaveUrl. */
  function ParseSaveUrl(url: string): Option<string> {
    UrlDate(SavePrefix, url)
  }

  /** The date an entries URL names: the inverse of EntriesUrl. */
  function ParseEntriesUrl(url: string): Option<string> {
    UrlDate(EntriesPrefix, url)
  }

  lemma {:induction false} UrlDateOfUrl(prefix: string, date: string)
    ensures UrlDate(prefix, prefix + date + "/") == Some(date)
  {
    var url := prefix + date + "/";
    assert url[..|prefix|] == prefix;
    assert url[|prefix|..|url| - 1] == date;
  }

  /** A save URL names the date it was built from, whatever that text is. */
  lemma ParseSaveUrlOfSaveUrl(date: string)
    ensures ParseSaveUrl(SaveUrl(date)) == Some(date)
  {
    UrlDateOfUrl(SavePrefix, date);
  }

  /** An entries URL names the date it was built from. */
  lemma ParseEntriesUrlOfEntriesUrl(date: string)
    ensures ParseEntriesUrl(EntriesUrl(date)) == Some(date)
  {
    UrlDateOfUrl(EntriesPrefix, date);
  }

  /** Loading a date's entries issues one GET for that date, with no body. */
  function LoadRequest(date: string): (r: Request)
    ensures r.verb == Get && r.form == None && ParseEntriesUrl(r.url) == Some(date)
  {
    ParseEntriesUrlOfEntriesUrl(date);
    Request(Get, EntriesUrl(date), None)
  }

  /** The save handler's decision for the selected date and the two fields:
      an invalid reading only shows the error; a valid one is posted, as
      entered, to the save URL of the selected date. */
  function SaveEntry(selectedDate: string, bloodPressure: string, glucoseLevel: string): (o: SaveOutcome)
    ensures o.ShowError? <==> !IsReading(bloodPressure)
    ensures o.Submit? ==>
      && o.request.verb == Post
      && ParseSaveUrl(o.request.url) == Some(selectedDate)
      && o.request.form == Some(Form(bloodPressure, glucoseLevel))
  {
    ValidBloodPressureIff(bloodPressure);
    ParseSaveUrlOfSaveUrl(selectedDate);
    if !ValidBloodPressure(bloodPressure) then ShowError
    else Submit(Request(Post, SaveUrl(selectedDate), Some(Form(bloodPressure, glucoseLevel))))
  }
}
