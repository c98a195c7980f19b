/** The accessibility-label parser inside `AirbnbScraper.get_all_messages`:
    one label such as "Alice sent Hello there. Sent 05 Jan 2024, 14:30"
    and the `data-islastmessage` attribute become one message record.

    Each field has its own step. The sender step runs first and is the
    only one that can fail: it tests for "sent" but looks up " sent", and
    the `ValueError` of that lookup is not caught. The content and date
    steps catch their `ValueError` and put a fallback text in the field. */
module MessageLabel {
  import opened Results
  import opened PyText
  import Strptime

  /** The `datetime` field: a parsed `datetime` or the text "Date not found". */
  datatype Stamp = At(dt: Strptime.DateTime) | DateNotFound

  datatype MessageRecord = MessageRecord(sender: string, message: string, datetime: Stamp, isLastMessage: bool)

  /** The uncaught `ValueError` of `aria_label.index(' sent')`. */
  datatype LabelError = SenderMarkerMissing

  const UnknownSender := "Unknown"
  const ContentNotFound := "Content not found"

  /** The sender step: the stripped text before the first " sent" when the
      label contains "sent"; "Unknown" when it does not; and the uncaught
      `ValueError` when it contains "sent" but not " sent". The first " sent"
      is taken wherever it is, inside the message text too. */
  function Sender(ariaLabel: string): (r: Result<string, LabelError>)
    ensures r.Err? <==> Contains(ariaLabel, "sent") && !Contains(ariaLabel, " sent")
    ensures !Contains(ariaLabel, "sent") ==> r == Ok(UnknownSender)
    ensures forall i: nat :: IsFirstFrom(ariaLabel, " sent", 0, i) ==> r == Ok(Strip(ariaLabel[..i]))
  {
    ContainsIffIndex(ariaLabel, " sent");
    if Contains(ariaLabel, "sent") then
      match Index(ariaLabel, " sent", 0)
      case None => Err(SenderMarkerMissing)
      case Some(i) =>
        FirstFromUnique(ariaLabel, " sent", 0, i);
        Ok(Strip(ariaLabel[..i]))
    else
      assert !Contains(ariaLabel, " sent") by {
        forall j: nat | OccursAt(ariaLabel, " sent", j) ensures OccursAt(ariaLabel, "sent", j + 1) {
          OccursAtSlice(ariaLabel, " sent", j, 1, 5);
        }
      }
      Ok(UnknownSender)
  }

  /** The content of `s` lies between `i + 5` and `j`: `i` is the first
      "sent " and `j` the first ". Sent" at or after `i + 5`. */
  ghost predicate IsContentSpan(s: string, i: nat, j: nat) {
    IsFirstFrom(s, "sent ", 0, i) && IsFirstFrom(s, ". Sent", i + 5, j)
  }

  /** The content step: the stripped text between the end of the first
      "sent " and the first ". Sent" at or after that point; "Content not
      found" when either marker is missing. */
  function Content(ariaLabel: string): (r: string)
    ensures forall i: nat, j: nat :: IsContentSpan(ariaLabel, i, j) ==> r == Strip(ariaLabel[i + 5..j])
    ensures !Contains(ariaLabel, "sent ") ==> r == ContentNotFound
    ensures forall i: nat :: IsFirstFrom(ariaLabel, "sent ", 0, i) && (forall j: nat :: i + 5 <= j ==> !OccursAt(ariaLabel, ". Sent", j))
              ==> r == ContentNotFound
  {
    ContainsIffIndex(ariaLabel, "sent ");
    match Index(ariaLabel, "sent ", 0)
    case None => ContentNotFound
    case Some(i) =>
      FirstFromUnique(ariaLabel, "sent ", 0, i);
      match Index(ariaLabel, ". Sent", i + 5)
      case None => ContentNotFound
      case Some(j) =>
        FirstFromUnique(ariaLabel, ". Sent", i + 5, j);
        Strip(ariaLabel[i + 5..j])
  }

  function ToStamp(parsed: Option<Strptime.DateTime>): Stamp {
    match parsed
    case Some(dt) => At(dt)
    case None => DateNotFound
  }

  /** The date step: `strptime` on the stripped text after the last
      "Sent "; "Date not found" when there is no "Sent " or that text is
      not a date and time in the label's format. */
  function SentAt(ariaLabel: string): (r: Stamp)
    ensures !Contains(ariaLabel, "Sent ") ==> r == DateNotFound
    ensures r.At? ==> Strptime.Valid(r.dt)
  {
    match RIndex(ariaLabel, "Sent ")
    case None => DateNotFound
    case Some(k) => ToStamp(Strptime.Parse(Strip(ariaLabel[k + 5..])))
  }

  /** The date step reads the text after the last "Sent ". */
  lemma SentAtLast(ariaLabel: string, k: nat)
    requires IsLast(ariaLabel, "Sent ", k)
    ensures SentAt(ariaLabel) == ToStamp(Strptime.Parse(Strip(ariaLabel[k + 5..])))
  {
    assert Contains(ariaLabel, "Sent ");
    LastUnique(ariaLabel, "Sent ", k);
    assert RIndex(ariaLabel, "Sent ") == Some(k);
  }

  /** One record from one message div. A record is produced exactly when
      the sender step does not raise; it then has all four fields, and
      `is_last_message` holds exactly when the attribute is "true". */
  function ParseLabel(ariaLabel: string, isLastAttr: Option<string>): (r: Result<MessageRecord, LabelError>)
    ensures r.Err? <==> Contains(ariaLabel, "sent") && !Contains(ariaLabel, " sent")
    ensures r.Ok? ==> (r.value.isLastMessage <==> isLastAttr == Some("true"))
  {
    var sender :- Sender(ariaLabel);
    Ok(MessageRecord(sender, Content(ariaLabel), SentAt(ariaLabel), isLastAttr == Some("true")))
  }

  // ---------------------------------------------------------------------
  // Properties of the parser
  // ---------------------------------------------------------------------

  /** Without "sent" in the label both the sender and the content take
      their fallbacks (every "sent " contains "sent"). */
  lemma NoSentGivesFallbacks(ariaLabel: string, isLastAttr: Option<string>)
    requires !Contains(ariaLabel, "sent")
    ensures ParseLabel(ariaLabel, isLastAttr).Ok?
    ensures ParseLabel(ariaLabel, isLastAttr).value.sender == UnknownSender
    ensures ParseLabel(ariaLabel, isLastAttr).value.message == ContentNotFound
  {
    assert !Contains(ariaLabel, "sent ") by {
      forall j: nat | OccursAt(ariaLabel, "sent ", j) ensures OccursAt(ariaLabel, "sent", j) {
        OccursAtSlice(ariaLabel, "sent ", j, 0, 4);
      }
    }
  }

  /** A text without `sub` gives no occurrence of `sub` that lies wholly
      inside it, whatever follows it. */
  lemma NotInPrefix(p: string, rest: string, sub: string, j: nat)
    requires !Contains(p, sub) && j + |sub| <= |p|
    ensures !OccursAt(p + rest, sub, j)
  {
    assert (p + rest)[j..j + |sub|] == p[j..j + |sub|];
    assert !OccursAt(p, sub, j);
  }

  /** A text without `sub` gives no occurrence of `sub` that lies wholly
      inside it, whatever surrounds it. */
  lemma NotInMiddle(p: string, t: string, rest: string, sub: string, j: nat)
    requires !Contains(t, sub) && |p| <= j && j + |sub| <= |p| + |t|
    ensures !OccursAt(p + t + rest, sub, j)
  {
    assert (p + t + rest)[j..j + |sub|] == t[j - |p|..j - |p| + |sub|];
    assert !OccursAt(t, sub, j - |p|);
  }

  /** The first " sent" of `name + " sent " + rest` is the one after the
      name, provided " sent" does not occur in the name. */
  lemma SenderMarkerOfComposed(name: string, rest: string)
    requires !Contains(name, " sent")
    ensures IsFirstFrom(name + " sent " + rest, " sent", 0, |name|)
  {
    var L := name + " sent " + rest;
    var a := |name|;
    assert L == name + (" sent " + rest);
    assert L[a..a + 5] == " sent";
    forall j: nat | j < a ensures !OccursAt(L, " sent", j) {
      if j + 5 <= a {
        NotInPrefix(name, " sent " + rest, " sent", j);
      } else {
        assert L[j..j + 5][a - j] == L[a] == ' ';
      }
    }
  }

  /** The first "sent " of `pre + "sent " + rest` is the one after `pre`,
      provided "sent" does not occur in `pre`. */
  lemma ContentMarkerOfComposed(pre: string, rest: string)
    requires !Contains(pre, "sent")
    ensures IsFirstFrom(pre + "sent " + rest, "sent ", 0, |pre|)
  {
    var L := pre + "sent " + rest;
    var a := |pre|;
    assert L == pre + ("sent " + rest);
    assert L[a..a + 5] == "sent ";
    forall j: nat | j < a ensures !OccursAt(L, "sent ", j) {
      if j + 4 <= a {
        assert L[j..j + 5][..4] == L[j..j + 4];
        NotInPrefix(pre, "sent " + rest, "sent", j);
      } else {
        assert L[j..j + 5][a - j] == L[a] == 's';
      }
    }
  }

  /** In `head + text + ". Sent " + tail`, the first ". Sent" at or after
      the start of `text` is the one after `text`, provided ". Sent" does
      not occur in `text`. */
  lemma EndMarkerOfComposed(head: string, text: string, tail: string)
    requires !Contains(text, ". Sent")
    ensures IsFirstFrom(head + text + ". Sent " + tail, ". Sent", |head|, |head| + |text|)
  {
    var L := head + text + ". Sent " + tail;
    var c := |head|;
    var b := c + |text|;
    assert L == head + text + (". Sent " + tail);
    assert L[b..b + 6] == ". Sent";
    forall j: nat | c <= j < b ensures !OccursAt(L, ". Sent", j) {
      if j + 6 <= b {
        NotInMiddle(head, text, ". Sent " + tail, ". Sent", j);
      } else {
        assert L[j..j + 6][b - j] == L[b] == '.';
      }
    }
  }

  /** In `head + "Sent " + tail`, the last "Sent " is the one before
      `tail`, provided "Sent " does not occur in `tail`. */
  lemma DateMarkerOfComposed(head: string, tail: string)
    requires !Contains(tail, "Sent ")
    ensures IsLast(head + "Sent " + tail, "Sent ", |head|)
    ensures (head + "Sent " + tail)[|head| + 5..] == tail
  {
    var L := head + "Sent " + tail;
    var k := |head|;
    assert L[k..k + 5] == "Sent ";
    assert L[k + 5..] == tail;
    forall j: nat | k < j ensures !OccursAt(L, "Sent ", j) {
      if j < k + 5 {
        assert L[j] in "ent ";
      } else if j + 5 <= |L| {
        NotInMiddle(head + "Sent ", tail, [], "Sent ", j);
        assert head + "Sent " + tail + [] == L;
      }
    }
  }

  /** A space after a name without "sent" adds no "sent". */
  lemma NoSentBeforeSpace(name: string)
    requires !Contains(name, "sent")
    ensures !Contains(name + " ", "sent")
  {
    forall j: nat | j + 4 <= |name| + 1 ensures !OccursAt(name + " ", "sent", j) {
      if j + 4 <= |name| {
        NotInPrefix(name, " ", "sent", j);
      } else {
        var w := (name + " ")[j..j + 4];
        assert w[3] == (name + " ")[|name|] == ' ';
        assert w != "sent" by { assert "sent"[3] == 't'; }
      }
    }
  }

  /** The sender of `name + " sent " + rest` is the stripped name. */
  lemma SenderOfComposed(name: string, rest: string)
    requires !Contains(name, " sent")
    ensures Sender(name + " sent " + rest) == Ok(Strip(name))
  {
    var L := name + " sent " + rest;
    SenderMarkerOfComposed(name, rest);
    assert L[..|name|] == name;
  }

  /** The content of `pre + "sent " + text + ". Sent " + tail` is the
      stripped text. */
  lemma ContentOfComposed(pre: string, text: string, tail: string)
    requires !Contains(pre, "sent") && !Contains(text, ". Sent")
    ensures Content(pre + "sent " + text + ". Sent " + tail) == Strip(text)
  {
    var L := pre + "sent " + text + ". Sent " + tail;
    var a := |pre|;
    assert L == pre + "sent " + (text + ". Sent " + tail);
    ContentMarkerOfComposed(pre, text + ". Sent " + tail);
    EndMarkerOfComposed(pre + "sent ", text, tail);
    assert L[a + 5..a + 5 + |text|] == text;
    assert IsContentSpan(L, a, a + 5 + |text|);
  }

  /** The date of `head + ". Sent " + tail` is read from the tail alone. */
  lemma DateOfComposed(head: string, tail: string)
    requires !Contains(tail, "Sent ")
    ensures SentAt(head + ". Sent " + tail) == ToStamp(Strptime.Parse(Strip(tail)))
  {
    assert head + ". Sent " + tail == (head + ". ") + "Sent " + tail;
    DateMarkerOfComposed(head + ". ", tail);
    SentAtLast((head + ". ") + "Sent " + tail, |head + ". "|);
  }

  /** The three field steps are independent: in a label
      `name + " sent " + text + ". Sent " + tail`, the sender is the
      stripped name and the content the stripped text whatever the tail
      holds, and the date is read from the tail alone, so a malformed date
      changes neither the sender nor the content. */
  lemma ParseComposedLabel(name: string, text: string, tail: string, isLastAttr: Option<string>)
    requires !Contains(name, "sent")
    requires !Contains(text, ". Sent")
    requires !Contains(tail, "Sent ")
    ensures ParseLabel(name + " sent " + text + ". Sent " + tail, isLastAttr)
            == Ok(MessageRecord(Strip(name), Strip(text), ToStamp(Strptime.Parse(Strip(tail))), isLastAttr == Some("true")))
  {
    SenderAndContentOfComposed(name, text, tail);
    DateOfComposed(name + " sent " + text, tail);
  }

  /** Sender and content of `name + " sent " + text + ". Sent " + tail`,
      whatever the tail holds. */
  lemma SenderAndContentOfComposed(name: string, text: string, tail: string)
    requires !Contains(name, "sent")
    requires !Contains(text, ". Sent")
    ensures Sender(name + " sent " + text + ". Sent " + tail) == Ok(Strip(name))
    ensures Content(name + " sent " + text + ". Sent " + tail) == Strip(text)
  {
    var L := name + " sent " + text + ". Sent " + tail;
    assert L == name + " sent " + (text + ". Sent " + tail);
    assert L == (name + " ") + "sent " + text + ". Sent " + tail;
    ContainsPart(name, " sent", 1, 5);
    assert " sent"[1..5] == "sent";
    SenderOfComposed(name, text + ". Sent " + tail);
    NoSentBeforeSpace(name);
    ContentOfComposed(name + " ", text, tail);
  }

  /** `strptime`'s canonical text never contains "Sent ": the only capital
      S it can hold starts "Sep". */
  lemma FormatHasNoDateMarker(dt: Strptime.DateTime)
    requires Strptime.InRange(dt)
    ensures !Contains(Strptime.Format(dt), "Sent ")
  {
    var mt := Strptime.MonthName(dt.month);
    var d := Strptime.TwoDigits(dt.day);
    var y := Strptime.FourDigits(dt.year);
    var h := Strptime.TwoDigits(dt.hour);
    var mi := Strptime.TwoDigits(dt.minute);
    var f := (d + " " + mt + " " + y) + ", " + (h + ":" + mi);
    assert f == Strptime.Format(dt);
    assert f[3] == mt[0] && f[4] == mt[1] && f[5] == mt[2];
    forall k | 0 <= k < 18 && k != 3 ensures f[k] != 'S' {
      if k < 2 { assert f[k] == d[k]; }
      else if 7 <= k < 11 { assert f[k] == y[k - 7]; }
      else if 13 <= k < 15 { assert f[k] == h[k - 13]; }
      else if 16 <= k { assert f[k] == mi[k - 16]; }
    }
    forall j: nat | j <= |f| ensures !OccursAt(f, "Sent ", j) {
      if j + 5 <= |f| {
        assert f[j..j + 5][0] == f[j] && f[j..j + 5][2] == f[j + 2];
      }
    }
  }

  /** After a last "Sent " followed by `strptime`'s canonical text of a
      date and time, the date step gives that date and time when it
      exists and "Date not found" when it does not (year 0, or a day past
      the end of its month). */
  lemma SentAtFormat(head: string, dt: Strptime.DateTime)
    requires Strptime.InRange(dt)
    ensures SentAt(head + "Sent " + Strptime.Format(dt))
            == if Strptime.Valid(dt) then At(dt) else DateNotFound
  {
    var f := Strptime.Format(dt);
    FormatHasNoDateMarker(dt);
    DateMarkerOfComposed(head, f);
    SentAtLast(head + "Sent " + f, |head|);
    Strptime.FormatTrimmed(dt);
    StripTrimmed(f);
    Strptime.ParseFormat(dt);
  }

  /** A label of the expected shape yields its sender, its text and its
      date; a date that does not exist gives "Date not found" and leaves
      the other fields as they are. */
  lemma ParseWellFormedLabel(name: string, text: string, dt: Strptime.DateTime, isLastAttr: Option<string>)
    requires !Contains(name, "sent")
    requires !Contains(text, ". Sent")
    requires Strptime.InRange(dt)
    ensures ParseLabel(name + " sent " + text + ". Sent " + Strptime.Format(dt), isLastAttr)
            == Ok(MessageRecord(Strip(name), Strip(text),
                                if Strptime.Valid(dt) then At(dt) else DateNotFound,
                                isLastAttr == Some("true")))
  {
    var f := Strptime.Format(dt);
    FormatHasNoDateMarker(dt);
    ParseComposedLabel(name, text, f, isLastAttr);
    Strptime.FormatTrimmed(dt);
    StripTrimmed(f);
    Strptime.ParseFormat(dt);
  }

  /** The content ends at the first ". Sent" after "sent " and the date
      starts after the last "Sent ": whatever lies between the two,
      another ". Sent" included, is in neither field. */
  lemma ParseLabelCutAtEndMarker(name: string, text: string, between: string, dt: Strptime.DateTime,
                                 isLastAttr: Option<string>)
    requires !Contains(name, "sent")
    requires !Contains(text, ". Sent")
    requires Strptime.InRange(dt)
    ensures ParseLabel(name + " sent " + text + ". Sent " + between + ". Sent " + Strptime.Format(dt), isLastAttr)
            == Ok(MessageRecord(Strip(name), Strip(text),
                                if Strptime.Valid(dt) then At(dt) else DateNotFound,
                                isLastAttr == Some("true")))
  {
    var f := Strptime.Format(dt);
    var tail := between + ". Sent " + f;
    var L := name + " sent " + text + ". Sent " + between + ". Sent " + f;
    var head := name + " sent " + text + ". Sent " + between + ". ";
    assert L == name + " sent " + text + ". Sent " + tail;
    assert L == head + "Sent " + f;
    SenderAndContentOfComposed(name, text, tail);
    SentAtFormat(head, dt);
  }

  // ---------------------------------------------------------------------
  // Examples
  // ---------------------------------------------------------------------

  // The labels below are written as concatenations of their parts; the
  // parts are the ones the lemmas above take.

  lemma MarkerFreeWords()
    ensures !Contains("Alice", "sent") && !Contains("Alice", " sent") && !Contains("Alice ", "sent")
    ensures !Contains("Bob", "sent") && !Contains("Hi", ". Sent") && !Contains("tomorrow", "Sent ")
    ensures !Contains("Hello there", ". Sent") && !Contains("I left", ". Sent")
  {
    MissingChar("Alice", "sent", 0);
    MissingChar("Alice", " sent", 1);
    MissingChar("Alice ", "sent", 0);
    MissingChar("Bob", "sent", 0);
    MissingChar("Hi", ". Sent", 0);
    MissingChar("tomorrow", "Sent ", 0);
    MissingChar("Hello there", ". Sent", 0);
    MissingChar("I left", ". Sent", 0);
  }

  lemma TrimmedWords()
    ensures Strip("Alice") == "Alice" && Strip("Hello there") == "Hello there"
    ensures Strip("I left") == "I left"
  {
    StripTrimmed("Alice");
    StripTrimmed("Hello there");
    StripTrimmed("I left");
  }

  lemma TrimmedShortWords()
    ensures Strip("Bob") == "Bob" && Strip("Hi") == "Hi" && Strip("tomorrow") == "tomorrow"
  {
    StripTrimmed("Bob");
    StripTrimmed("Hi");
    StripTrimmed("tomorrow");
  }

  lemma NoLowerCaseMarker()
    ensures !Contains("Photo added" + ". Sent " + "05 Jan 2024, 14:30", "sent")
  {
    var L := "Photo added" + ". Sent " + "05 Jan 2024, 14:30";
    assert 's' !in L;
    MissingChar(L, "sent", 0);
  }

  /** The ". " that ends a text belongs to the head before the date marker. */
  lemma DateMarkerAfterText(text: string, tail: string)
    ensures text + ". Sent " + tail == (text + ". ") + "Sent " + tail
  {
  }

  /** The label shape the parser is written for. */
  lemma ExampleWellFormed()
    ensures ParseLabel("Alice" + " sent " + "Hello there" + ". Sent " + "05 Jan 2024, 14:30", Some("true"))
            == Ok(MessageRecord("Alice", "Hello there", At(Strptime.DateTime(2024, 1, 5, 14, 30)), true))
  {
    var dt := Strptime.DateTime(2024, 1, 5, 14, 30);
    MarkerFreeWords();
    ParseWellFormedLabel("Alice", "Hello there", dt, Some("true"));
    Strptime.ExampleFormat();
    TrimmedWords();
  }

  /** A day past the end of its month: the date step's `ValueError` is
      caught, and the sender and the content are kept. */
  lemma ExampleDayPastMonthEnd()
    ensures ParseLabel("Alice" + " sent " + "Hello there" + ". Sent " + "30 Feb 2024, 10:00", None)
            == Ok(MessageRecord("Alice", "Hello there", DateNotFound, false))
  {
    var dt := Strptime.DateTime(2024, 2, 30, 10, 0);
    MarkerFreeWords();
    TrimmedWords();
    Strptime.ExampleFormatPastMonthEnd();
    ParseWellFormedLabel("Alice", "Hello there", dt, None);
  }

  /** A date that is not in the label's format leaves the sender and the
      content as they are and gives "Date not found". */
  lemma ExampleDateNotFound()
    ensures ParseLabel("Bob" + " sent " + "Hi" + ". Sent " + "tomorrow", None)
            == Ok(MessageRecord("Bob", "Hi", DateNotFound, false))
  {
    MarkerFreeWords();
    ParseComposedLabel("Bob", "Hi", "tomorrow", None);
    TrimmedShortWords();
    Strptime.ExampleNotADate();
  }

  /** A message text holding ". Sent" is cut at it, while the date is
      still read after the last "Sent ". */
  lemma ExampleTextWithEndMarker()
    ensures ParseLabel("Alice" + " sent " + "I left" + ". Sent " + "it already" + ". Sent " + "05 Jan 2024, 14:30", None)
            == Ok(MessageRecord("Alice", "I left", At(Strptime.DateTime(2024, 1, 5, 14, 30)), false))
  {
    MarkerFreeWords();
    ParseLabelCutAtEndMarker("Alice", "I left", "it already", Strptime.DateTime(2024, 1, 5, 14, 30), None);
    Strptime.ExampleFormat();
    TrimmedWords();
  }

  /** A label with no lower-case "sent" (only the capitalised date marker)
      takes the "Unknown" and "Content not found" fallbacks and keeps its
      date. */
  lemma ExampleNoSender()
    ensures ParseLabel("Photo added" + ". Sent " + "05 Jan 2024, 14:30", None)
            == Ok(MessageRecord(UnknownSender, ContentNotFound, At(Strptime.DateTime(2024, 1, 5, 14, 30)), false))
  {
    var dt := Strptime.DateTime(2024, 1, 5, 14, 30);
    var L := "Photo added" + ". Sent " + "05 Jan 2024, 14:30";
    Strptime.ExampleFormat();
    NoLowerCaseMarker();
    NoSentGivesFallbacks(L, None);
    DateMarkerAfterText("Photo added", Strptime.Format(dt));
    SentAtFormat("Photo added" + ". ", dt);
  }

  /** A label that starts with "sent" has "sent" but no " sent": the
      lookup of the sender's end raises. */
  lemma ExampleSenderMarkerMissing()
    ensures ParseLabel("sent a photo", None) == Err(SenderMarkerMissing)
  {
    var L := "sent a photo";
    assert OccursAt(L, "sent", 0);
    forall j: nat | j + 5 <= |L| ensures !OccursAt(L, " sent", j) {
      assert L[j..j + 5][0] == L[j] && L[j..j + 5][1] == L[j + 1];
    }
  }
}
