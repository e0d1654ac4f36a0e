/**
 * The two pieces of sequential state the device's main tasks keep around the message cache
 * (pico/src/main.rs), and the Wi-Fi credential check run at start-up.
 *
 * `fetch_data` keeps the cursor `last_message_id` across reconnects: it is sent with every update
 * request and moves to the largest id handled so far. The socket is an input here: each connection
 * attempt either fails, or yields the updates handled in turn and the way the polling loop ended.
 *
 * `display_messages` keeps `last_message_time`, chaining the cache's round robin from turn to turn;
 * the clock is an input, one reading per turn, and the cache is a snapshot that other tasks do not
 * change during the turns modelled.
 */
module Firmware {
  import opened Wrappers
  import opened Bytes
  import opened Types
  import opened MessageBuf
  import Rotation
  import StaticData
  import Utf8

  // ---------------------------------------------------------------- Wi-Fi credentials

  datatype SoftError = WifiConfiguration | StaticDataError

  /**
   * The check `wifi` applies to `wifi_ssid()` and to `wifi_password()`: a missing value is a static
   * data error, an empty one a configuration error; either stops the task for good.
   */
  function WifiCredential(read: Option<seq<byte>>): (r: Result<seq<byte>, SoftError>)
    ensures r.Ok? <==> read.Some? && |read.value| > 0
    ensures r.Ok? ==> r.value == read.value
    ensures read.None? ==> r == Err(StaticDataError)
    ensures read == Some([]) ==> r == Err(WifiConfiguration)
  {
    match read
    case None => Err(StaticDataError)
    case Some(s) => if |s| == 0 then Err(WifiConfiguration) else Ok(s)
  }

  /** A device never flashed with a configuration image stops with a configuration error. */
  lemma UnconfiguredDeviceStops()
    ensures WifiCredential(StaticData.WifiSsid(StaticData.DEFAULT_CONFIG)) == Err(WifiConfiguration)
    ensures WifiCredential(StaticData.WifiPassword(StaticData.DEFAULT_CONFIG)) == Err(WifiConfiguration)
  {
    StaticData.DefaultIsEmpty();
  }

  /**
   * An SSID written as a non-empty, NUL-free UTF-8 string shorter than its 32-byte buffer and padded
   * with zeros is the one the device joins.
   */
  lemma ConfiguredSsidIsUsed(c: StaticData.FlashConfig, ssid: seq<byte>)
    requires StaticData.WellSized(c)
    requires 0 < |ssid| < 32 && 0 !in ssid && Utf8.Valid(ssid)
    requires c.wifiSsidBytes == ssid + Zeros(32 - |ssid|)
    ensures WifiCredential(StaticData.WifiSsid(c)) == Ok(ssid)
  {
    StaticData.PaddedReadsBack(ssid, 32);
    assert StaticData.WifiSsid(c) == StaticData.CStrUntilNul(ssid + Zeros(32 - |ssid|)) == Some(ssid);
  }

  // ---------------------------------------------------------------- the fetch cursor

  /** How the polling loop of one connection ended. */
  datatype SessionEnd = RequestFailed | NothingNew | HandleFailed(id: UpdateID)

  /** One pass of the reconnect loop: the connection fails, or these updates were handled in order. */
  datatype Attempt = ConnectFailed | Connected(handled: seq<UpdateID>, end: SessionEnd)

  /** `Option` order on cursors: `None` below every id. */
  predicate CursorLe(a: Option<UpdateID>, b: Option<UpdateID>)
  {
    a.None? || (b.Some? && a.value.value <= b.value.value)
  }

  /** `Some(last_message_id.map_or(update.id, |last| cmp::max(last, update.id)))` */
  function Advance(cursor: Option<UpdateID>, id: UpdateID): (r: Option<UpdateID>)
    ensures r.Some? && CursorLe(cursor, r) && CursorLe(Some(id), r)
    ensures r.value == id || r == cursor
  {
    match cursor
    case None => Some(id)
    case Some(last) => Some(MaxUpdateId(last, id))
  }

  /** The cursor after handling `ids` in order, starting from `cursor`. */
  function FoldCursor(cursor: Option<UpdateID>, ids: seq<UpdateID>): Option<UpdateID>
  {
    if |ids| == 0 then cursor else Advance(FoldCursor(cursor, ids[..|ids| - 1]), ids[|ids| - 1])
  }

  lemma {:induction false} FoldAppend(cursor: Option<UpdateID>, a: seq<UpdateID>, b: seq<UpdateID>)
    ensures FoldCursor(cursor, a + b) == FoldCursor(FoldCursor(cursor, a), b)
    decreases |b|
  {
    if |b| == 0 {
      assert a + b == a;
    } else {
      assert (a + b)[..|a + b| - 1] == a + b[..|b| - 1];
      FoldAppend(cursor, a, b[..|b| - 1]);
    }
  }

  /**
   * The cursor is the largest of the start and the ids handled, and it is one of them: it never goes
   * back, and it is `None` only while nothing was handled.
   */
  lemma {:induction false} CursorIsMaximum(cursor: Option<UpdateID>, ids: seq<UpdateID>)
    ensures CursorLe(cursor, FoldCursor(cursor, ids))
    ensures forall i :: 0 <= i < |ids| ==> CursorLe(Some(ids[i]), FoldCursor(cursor, ids))
    ensures FoldCursor(cursor, ids) == cursor || FoldCursor(cursor, ids).value in ids
    ensures FoldCursor(cursor, ids).None? <==> cursor.None? && |ids| == 0
    decreases |ids|
  {
    if |ids| > 0 {
      var init := ids[..|ids| - 1];
      CursorIsMaximum(cursor, init);
      assert forall i :: 0 <= i < |init| ==> init[i] == ids[i];
    }
  }

  /** Every id handled over all attempts, in order. */
  function HandledIds(attempts: seq<Attempt>): seq<UpdateID>
  {
    if |attempts| == 0 then []
    else
      var last := attempts[|attempts| - 1];
      HandledIds(attempts[..|attempts| - 1]) + (if last.Connected? then last.handled else [])
  }

  /** `last_message_id` after the attempts, starting from `None`. */
  function CursorAfter(attempts: seq<Attempt>): Option<UpdateID>
  {
    FoldCursor(None, HandledIds(attempts))
  }

  /**
   * After any run of attempts the cursor is `None` exactly when no update was ever handled, and
   * otherwise the largest id handled; failed connections, failed requests and failed handling leave
   * no trace in it.
   */
  lemma CursorIsLargestHandled(attempts: seq<Attempt>)
    ensures CursorAfter(attempts).None? <==> |HandledIds(attempts)| == 0
    ensures CursorAfter(attempts).Some? ==>
              CursorAfter(attempts).value in HandledIds(attempts)
              && forall i :: 0 <= i < |HandledIds(attempts)| ==>
                   HandledIds(attempts)[i].value <= CursorAfter(attempts).value.value
  {
    CursorIsMaximum(None, HandledIds(attempts));
  }

  /** The cursors sent with the requests that were each answered by an update handled successfully. */
  function Polls(cursor: Option<UpdateID>, handled: seq<UpdateID>): (r: seq<Option<UpdateID>>)
    ensures |r| == |handled|
  {
    if |handled| == 0 then []
    else
      var init := handled[..|handled| - 1];
      Polls(cursor, init) + [FoldCursor(cursor, init)]
  }

  /** Every request of one connection: one per update handled, then the one that ended the loop. */
  function Requests(cursor: Option<UpdateID>, handled: seq<UpdateID>): (r: seq<Option<UpdateID>>)
    ensures |r| == |handled| + 1
  {
    Polls(cursor, handled) + [FoldCursor(cursor, handled)]
  }

  /** The cursor sent with each `request_update` over all attempts, in order. */
  function SentAll(attempts: seq<Attempt>): seq<Option<UpdateID>>
  {
    if |attempts| == 0 then []
    else
      var init := attempts[..|attempts| - 1];
      var last := attempts[|attempts| - 1];
      SentAll(init) + (if last.Connected? then Requests(CursorAfter(init), last.handled) else [])
  }

  /** Connections opened, each closed once whichever way its polling loop ended. */
  function Closes(attempts: seq<Attempt>): nat
  {
    if |attempts| == 0 then 0
    else Closes(attempts[..|attempts| - 1]) + (if attempts[|attempts| - 1].Connected? then 1 else 0)
  }

  /** Soft errors reported: failed connections, and polling loops that ended in `Err`. */
  function SoftErrors(attempts: seq<Attempt>): nat
  {
    if |attempts| == 0 then 0
    else
      var last := attempts[|attempts| - 1];
      SoftErrors(attempts[..|attempts| - 1]) + (if last.ConnectFailed? || !last.end.NothingNew? then 1 else 0)
  }

  /** The sent cursors never decrease, and none is above the current cursor. */
  ghost predicate SentInOrder(sent: seq<Option<UpdateID>>, cursor: Option<UpdateID>)
  {
    (forall k, l :: 0 <= k <= l < |sent| ==> CursorLe(sent[k], sent[l]))
    && forall k :: 0 <= k < |sent| ==> CursorLe(sent[k], cursor)
  }

  /**
   * The inner polling loop of one connection: a request with the cursor for every update handled,
   * each moving the cursor, then the request that ended the loop.
   */
  method Poll(start: Option<UpdateID>, handled: seq<UpdateID>, ghost before: seq<Option<UpdateID>>)
      returns (cursor: Option<UpdateID>, sent: seq<Option<UpdateID>>)
    requires SentInOrder(before, start)
    ensures cursor == FoldCursor(start, handled)
    ensures sent == Requests(start, handled)
    ensures SentInOrder(before + sent, cursor)
  {
    cursor := start;
    sent := [];
    var j := 0;
    while j < |handled|
      invariant j <= |handled|
      invariant cursor == FoldCursor(start, handled[..j])
      invariant sent == Polls(start, handled[..j])
      invariant SentInOrder(before + sent, cursor)
    {
      assert handled[..j + 1][..j] == handled[..j];
      assert before + (sent + [cursor]) == (before + sent) + [cursor];
      sent := sent + [cursor];
      cursor := Advance(cursor, handled[j]);
      j := j + 1;
    }
    assert handled[..j] == handled;
    assert before + (sent + [cursor]) == (before + sent) + [cursor];
    sent := sent + [cursor];
  }

  /**
   * The `fetch_data` loop over a finite run of connection attempts. The cursor sent with the requests
   * never decreases, and after the run it is the largest id handled.
   */
  method FetchData(attempts: seq<Attempt>)
      returns (cursor: Option<UpdateID>, sent: seq<Option<UpdateID>>, closes: nat, softErrors: nat)
    ensures cursor == CursorAfter(attempts)
    ensures sent == SentAll(attempts)
    ensures closes == Closes(attempts) && softErrors == SoftErrors(attempts)
    ensures SentInOrder(sent, cursor)
  {
    cursor := None;
    sent := [];
    closes := 0;
    softErrors := 0;
    var i := 0;
    while i < |attempts|
      invariant i <= |attempts|
      invariant cursor == CursorAfter(attempts[..i])
      invariant sent == SentAll(attempts[..i])
      invariant closes == Closes(attempts[..i]) && softErrors == SoftErrors(attempts[..i])
      invariant SentInOrder(sent, cursor)
    {
      assert attempts[..i + 1][..i] == attempts[..i];
      match attempts[i] {
        case ConnectFailed =>
          assert HandledIds(attempts[..i + 1]) == HandledIds(attempts[..i]) + [] == HandledIds(attempts[..i]);
          softErrors := softErrors + 1;
        case Connected(handled, end) =>
          assert HandledIds(attempts[..i + 1]) == HandledIds(attempts[..i]) + handled;
          FoldAppend(None, HandledIds(attempts[..i]), handled);
          var requests;
          cursor, requests := Poll(cursor, handled, sent);
          sent := sent + requests;
          closes := closes + 1;
          if !end.NothingNew? {
            softErrors := softErrors + 1;
          }
      }
      i := i + 1;
    }
    assert attempts[..i] == attempts;
  }

  // ---------------------------------------------------------------- the display rotation

  const NO_MESSAGES: string := "No messages :("

  /** What one turn puts on the screen. */
  datatype Screen = ShowText(text: string) | ShowImage(image: seq<byte>) | Placeholder(text: string)

  /** The screen for what `next_display_message_generic` returned. */
  function ScreenOf(cache: Messages, d: Option<DisplayRef>): (s: Screen)
    reads cache, cache.texts, cache.images
    requires d.Some? && d.value.TextSlot? ==> d.value.index < cache.texts.Length
    requires d.Some? && d.value.ImageSlot? ==> d.value.index < cache.images.Length
    ensures s.Placeholder? <==> d.None?
    ensures s.Placeholder? ==> s.text == NO_MESSAGES
    ensures d.Some? && d.value.TextSlot? ==> s == ShowText(cache.texts[d.value.index].data.text)
    ensures d.Some? && d.value.ImageSlot? ==> s == ShowImage(cache.images[d.value.index].data.image)
  {
    match d
    case None => Placeholder(NO_MESSAGES)
    case Some(TextSlot(i)) => ShowText(cache.texts[i].data.text)
    case Some(ImageSlot(i)) => ShowImage(cache.images[i].data.image)
  }

  /** The screen one turn shows: the slot the cache picks after `last`, or the placeholder. */
  function ScreenAt(cache: Messages, last: nat, now: nat): (s: Screen)
    reads cache, cache.texts, cache.images
    ensures s.Placeholder? <==> forall i :: 0 <= i < |cache.AllMetas()| ==> !IsActive(cache.AllMetas()[i], now)
  {
    ScreenOf(cache, cache.NextDisplayMessage(last, now))
  }

  /** The screens of the turns at the clock readings `nows`, starting from `Instant::MIN`. */
  function ScreensFor(cache: Messages, nows: seq<nat>): (r: seq<Screen>)
    reads cache, cache.texts, cache.images
    ensures |r| == |nows|
  {
    if |nows| == 0 then []
    else
      var init := nows[..|nows| - 1];
      ScreensFor(cache, init) + [ScreenAt(cache, Rotation.TimeAfter(cache.AllMetas(), 0, init), nows[|nows| - 1])]
  }

  /** Turn `k` shows the slot the cache picks after the time the earlier turns left. */
  lemma {:induction false} ScreenOfTurnIs(cache: Messages, nows: seq<nat>, k: nat)
    requires k < |nows|
    ensures ScreensFor(cache, nows)[k] == ScreenAt(cache, Rotation.TimeAfter(cache.AllMetas(), 0, nows[..k]), nows[k])
    decreases |nows|
  {
    var init := nows[..|nows| - 1];
    if k < |nows| - 1 {
      ScreenOfTurnIs(cache, init, k);
      assert init[..k] == nows[..k] && init[k] == nows[k];
      assert ScreensFor(cache, nows)[k] == ScreensFor(cache, init)[k];
    } else {
      assert init == nows[..k];
    }
  }

  /**
   * Turn `k` shows the slot the cache picks after the time the earlier turns left, and the placeholder
   * exactly when no slot is active at that turn's clock reading.
   */
  lemma ScreenOfTurn(cache: Messages, nows: seq<nat>, k: nat)
    requires k < |nows|
    ensures ScreensFor(cache, nows)[k] == ScreenAt(cache, Rotation.TimeAfter(cache.AllMetas(), 0, nows[..k]), nows[k])
    ensures ScreensFor(cache, nows)[k].Placeholder? <==>
              forall i :: 0 <= i < |cache.AllMetas()| ==> !IsActive(cache.AllMetas()[i], nows[k])
  {
    ScreenOfTurnIs(cache, nows, k);
  }

  /**
   * The `display_messages` loop, one turn per clock reading. `last_message_time` starts at
   * `Instant::MIN` and follows the rotation of `Rotation.TimeAfter`; the screens are those of
   * `ScreensFor`.
   */
  method DisplayMessages(cache: Messages, nows: seq<nat>) returns (screens: seq<Screen>, last: nat)
    ensures last == Rotation.TimeAfter(cache.AllMetas(), 0, nows)
    ensures screens == ScreensFor(cache, nows)
  {
    ghost var all := cache.AllMetas();
    last := 0;
    screens := [];
    var k := 0;
    while k < |nows|
      invariant k <= |nows|
      invariant last == Rotation.TimeAfter(all, 0, nows[..k])
      invariant screens == ScreensFor(cache, nows[..k])
    {
      Rotation.TimeAfterSnoc(all, 0, nows, k);
      assert nows[..k + 1][..k] == nows[..k];
      var shown := cache.NextDisplayMessage(last, nows[k]);
      var screen := ScreenOf(cache, shown);
      assert screen == ScreenAt(cache, last, nows[k]);
      if shown.Some? {
        last := cache.MetaOf(shown.value).updatedAt;
      }
      screens := screens + [screen];
      k := k + 1;
    }
    assert nows[..k] == nows;
  }
}
