/** The two loops of `AirbnbScraper` that build lists from what the page
    holds: `get_all_messages`, which parses one record per message div,
    and `get_message_ids`, which decodes one id pair per inbox link. The
    browser is not modelled: each method takes what its `WebDriverWait`
    found, with `None` for a wait that timed out. */
module Scraper {
  import opened Results
  import opened PyText
  import opened MessageLabel

  /** The exceptions that leave the two methods uncaught. */
  datatype Exception = IndexError | ValueError | NameError

  /** One message div: its `aria-label` and its `data-islastmessage`
      attribute (`None` when the div has none). */
  datatype MessageDiv = MessageDiv(ariaLabel: string, isLastMessageAttr: Option<string>)

  function RecordOf(div: MessageDiv): Result<MessageRecord, LabelError> {
    ParseLabel(div.ariaLabel, div.isLastMessageAttr)
  }

  /** The loop that builds `formatted_message_data`: one record per div,
      in div order. When the sender step of a div raises, the loop stops
      there: `failedAt` is that div, and `formatted` holds the records of
      the divs before it. */
  method FormatMessages(divs: seq<MessageDiv>) returns (formatted: seq<MessageRecord>, failedAt: Option<nat>)
    ensures failedAt.None? ==> MapAll(RecordOf, divs) == Ok(formatted)
    ensures failedAt.Some? ==> && failedAt.value < |divs|
                               && MapAll(RecordOf, divs[..failedAt.value]) == Ok(formatted)
                               && RecordOf(divs[failedAt.value]).Err?
                               && MapAll(RecordOf, divs) == Err(RecordOf(divs[failedAt.value]).error)
  {
    formatted := [];
    var i := 0;
    while i < |divs|
      invariant 0 <= i <= |divs|
      invariant MapAll(RecordOf, divs[..i]) == Ok(formatted)
    {
      var r := RecordOf(divs[i]);
      assert divs[..i + 1][..i] == divs[..i];
      if r.Err? {
        MapAllStopsAtFailure(RecordOf, divs, i + 1);
        failedAt := Some(i);
        return;
      }
      formatted := formatted + [r.value];
      i := i + 1;
    }
    assert divs[..i] == divs;
    failedAt := None;
  }

  /** `get_all_messages`. `page` holds, for each outer div the wait found,
      its message divs; a wait that returns has found at least one outer
      div, so of the short pages only a single outer div can reach the
      indexing, while the empty one is kept for completeness.

      The method never returns the records it builds: a timed-out wait
      returns `[]`; fewer than two outer divs make `outer_div[1]` raise
      `IndexError`; a label whose sender step raises makes `ValueError`
      escape; and otherwise the final `return` of the undefined
      `message_data` raises `NameError`. */
  method GetAllMessages(page: Option<seq<seq<MessageDiv>>>) returns (r: Result<seq<MessageRecord>, Exception>)
    ensures r.Ok? <==> page.None?
    ensures r.Ok? ==> r.value == []
    ensures page.Some? && |page.value| < 2 ==> r == Err(IndexError)
    ensures page.Some? && |page.value| >= 2 ==>
              (r == Err(NameError) <==> MapAll(RecordOf, page.value[1]).Ok?)
    ensures page.Some? && |page.value| >= 2 ==>
              (r == Err(ValueError) <==> MapAll(RecordOf, page.value[1]).Err?)
  {
    if page.None? {
      return Ok([]);
    }
    var outer := page.value;
    if |outer| < 2 {
      return Err(IndexError);
    }
    var formatted, failedAt := FormatMessages(outer[1]);
    if failedAt.Some? {
      r := Err(ValueError);
    } else {
      r := Err(NameError);
    }
  }

  // ---------------------------------------------------------------------
  // Message ids
  // ---------------------------------------------------------------------

  /** One inbox link: its `data-testid` and `data-item-index` attributes. */
  datatype InboxLink = InboxLink(testId: string, itemIndex: string)

  /** One entry of `message_info`. */
  datatype MessageRef = MessageRef(messageId: int, messageIndex: int)

  const InboxListMarker := "inbox_list_"

  /** The id in a `data-testid`: `int()` of the text with every
      "inbox_list_" removed, wherever it stands; `None` stands for the
      `ValueError` of `int()`. */
  function MessageId(testId: string): (r: Option<int>)
    ensures r.Some? <==> !HasSeparator(testId)
                         && IsIntText(Strip(RemoveAll(testId, InboxListMarker)))
  {
    RemoveAllSeparators(testId, InboxListMarker);
    ParseInt(RemoveAll(testId, InboxListMarker))
  }

  /** One entry of `message_info`, or the `ValueError` of either
      `int()`. */
  function DecodeLink(link: InboxLink): (r: Result<MessageRef, Exception>)
    ensures r.Ok? <==> MessageId(link.testId).Some? && ParseInt(link.itemIndex).Some?
    ensures r.Ok? ==> r.value.messageId == MessageId(link.testId).value
                      && r.value.messageIndex == ParseInt(link.itemIndex).value
    ensures r.Err? ==> r.error == ValueError
  {
    match (MessageId(link.testId), ParseInt(link.itemIndex))
    case (Some(id), Some(index)) => Ok(MessageRef(id, index))
    case _ => Err(ValueError)
  }

  /** The link the inbox page holds for a message: its id after the
      marker, and its index. */
  function EncodeLink(ref: MessageRef): InboxLink {
    InboxLink(InboxListMarker + IntText(ref.messageId), IntText(ref.messageIndex))
  }

  /** The loop that builds `message_info`: one entry per link, in link
      order, or `ValueError` as soon as one link does not decode. */
  method DecodeLinks(links: seq<InboxLink>) returns (r: Result<seq<MessageRef>, Exception>)
    ensures r == MapAll(DecodeLink, links)
    ensures r.Err? ==> r.error == ValueError
  {
    var info: seq<MessageRef> := [];
    var i := 0;
    while i < |links|
      invariant 0 <= i <= |links|
      invariant MapAll(DecodeLink, links[..i]) == Ok(info)
    {
      var ref := DecodeLink(links[i]);
      MapAllStep(DecodeLink, links, i, info);
      if ref.Err? {
        return ref.PropagateFailure();
      }
      info := info + [ref.value];
      i := i + 1;
    }
    assert links[..i] == links;
    r := Ok(info);
  }

  /** `get_message_ids` over the links the wait found; a timed-out wait
      returns `[]`. */
  method GetMessageIds(links: Option<seq<InboxLink>>) returns (r: Result<seq<MessageRef>, Exception>)
    ensures links.None? ==> r == Ok([])
    ensures links.Some? ==> r == MapAll(DecodeLink, links.value)
    ensures r.Err? ==> r.error == ValueError
  {
    if links.None? {
      return Ok([]);
    }
    r := DecodeLinks(links.value);
  }

  /** Every id and index the inbox page can hold decodes back. */
  lemma DecodeEncodeLink(ref: MessageRef)
    ensures DecodeLink(EncodeLink(ref)) == Ok(ref)
  {
    MessageIdOfMarkedText(ref.messageId);
    ParseIntDecimal(ref.messageIndex);
  }

  /** The links of an inbox page listing `refs`, in order. */
  function EncodeLinks(refs: seq<MessageRef>): (links: seq<InboxLink>)
    ensures |links| == |refs|
    ensures forall k :: 0 <= k < |refs| ==> links[k] == EncodeLink(refs[k])
  {
    seq(|refs|, k requires 0 <= k < |refs| => EncodeLink(refs[k]))
  }

  /** `get_message_ids` on a page listing `refs` returns `refs`, in order. */
  lemma DecodeEncodedLinks(refs: seq<MessageRef>)
    ensures MapAll(DecodeLink, EncodeLinks(refs)) == Ok(refs)
  {
    var links := EncodeLinks(refs);
    forall k | 0 <= k < |refs| ensures DecodeLink(links[k]) == Ok(refs[k]) {
      DecodeEncodeLink(refs[k]);
    }
    MapAllOfEntries(DecodeLink, links, refs);
  }

  /** The id after a leading "inbox_list_" is read back, for either sign. */
  lemma MessageIdOfMarkedText(n: int)
    ensures MessageId(InboxListMarker + IntText(n)) == Some(n)
  {
    RemoveAllPrefix(InboxListMarker, IntText(n));
    MissingChar(IntText(n), InboxListMarker, 0);
    RemoveAllAbsent(IntText(n), InboxListMarker);
    ParseIntDecimal(n);
  }

  /** `replace` makes one pass: a marker that only appears once an inner
      marker has been removed stays in the text. */
  lemma ExampleMarkerAcrossMarker()
    ensures RemoveAll("inbox_l" + InboxListMarker + "ist_5", InboxListMarker) == "inbox_l" + "ist_5"
  {
    var L := "inbox_l" + InboxListMarker + "ist_5";
    forall j: nat | j < 7 ensures !OccursAt(L, InboxListMarker, j) {
      if j == 0 {
        assert L[8] == InboxListMarker[1] == 'n' && InboxListMarker[8] == 's';
        assert L[..11][8] != InboxListMarker[8];
      } else {
        assert L[j..j + 11][0] == L[j] != InboxListMarker[0];
      }
    }
    assert L[7..18] == InboxListMarker;
    assert IsFirstFrom(L, InboxListMarker, 0, 7);
    RemoveAllAtFirst(L, InboxListMarker, 7);
    assert L[..7] == "inbox_l" && L[18..] == "ist_5";
    MissingChar("ist_5", InboxListMarker, 1);
    RemoveAllAbsent("ist_5", InboxListMarker);
  }

  /** A separator after the id is not whitespace to `int()`: the id does
      not decode, and the `ValueError` leaves `get_message_ids`. */
  lemma ExampleSeparatorAfterId()
    ensures MessageId(InboxListMarker + "5\U{1F}") == None
  {
    var rest := "5\U{1F}";
    RemoveAllPrefix(InboxListMarker, rest);
    MissingChar(rest, InboxListMarker, 0);
    RemoveAllAbsent(rest, InboxListMarker);
    ParseIntRejectsSeparator(rest, 1);
  }

  /** Every "inbox_list_" goes, not only a leading one: a marker between
      two runs of digits joins them into one number. */
  lemma MessageIdDropsInnerMarker(p: string, q: string)
    requires AllDigits(p) && AllDigits(q)
    ensures MessageId(p + InboxListMarker + q) == ParseInt(p + q)
  {
    MissingChar(p, InboxListMarker, 0);
    assert p + InboxListMarker + q == p + (InboxListMarker + q);
    RemoveAllFreePrefix(p, InboxListMarker + q, InboxListMarker);
    RemoveAllPrefix(InboxListMarker, q);
    MissingChar(q, InboxListMarker, 0);
    RemoveAllAbsent(q, InboxListMarker);
  }
}
