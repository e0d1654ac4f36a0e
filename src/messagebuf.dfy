/**
 * The device's message cache (pico/src/messagebuf.rs): ten text slots and two image slots, each with
 * freshness metadata. The write path picks the slot to overwrite (the first inactive one, else the
 * oldest) and clears its data; the read path is a round robin over the active slots in order of
 * their update time.
 *
 * Time is embassy's `Instant`, a tick count: `Instant::MIN` is tick 0 and `Duration::from_secs(s)` is
 * `s * TICKS_PER_SECOND` ticks. `Instant::now()` is the parameter `now`.
 */
module MessageBuf {
  import opened Wrappers
  import opened Bytes
  import opened MinBy
  import Consts
  import Pico

  const TEXT_MESSAGE_NUM: nat := 10
  const IMAGE_MESSAGE_NUM: nat := 2

  /** embassy-time's tick rate (the `tick-hz-1_000_000` configuration). */
  const TICKS_PER_SECOND: nat := 1_000_000

  datatype MessageMeta = MessageMeta(lifetime: nat, updatedAt: nat)

  datatype TextData = TextData(text: string)

  datatype ImageData = ImageData(image: seq<byte>)

  datatype Message<D> = Message(data: D, meta: MessageMeta)

  /** `MessageMeta::is_active` */
  predicate IsActive(m: MessageMeta, now: nat)
  {
    now < m.updatedAt + m.lifetime
  }

  /** `MessageMeta::new`: updated at `Instant::MIN` with lifetime `Duration::MIN`, never active. */
  function NewMeta(): (m: MessageMeta)
    ensures m.updatedAt == 0 && m.lifetime == 0
    ensures forall now: nat :: !IsActive(m, now)
  {
    MessageMeta(0, 0)
  }

  /**
   * `Message::set_meta`: stamp the slot with the current time and the update's lifetime; the data is
   * not touched. The slot then stays active for exactly `lifetime_sec` seconds.
   */
  function SetMeta<D>(m: Message<D>, update: Pico.Update, now: nat): (r: Message<D>)
    ensures r.data == m.data
    ensures r.meta.updatedAt == now && r.meta.lifetime == update.lifetimeSec * TICKS_PER_SECOND
    ensures forall t: nat :: IsActive(r.meta, t) <==> t < now + update.lifetimeSec * TICKS_PER_SECOND
    ensures IsActive(r.meta, now) <==> update.lifetimeSec > 0
  {
    Message(m.data, MessageMeta(update.lifetimeSec * TICKS_PER_SECOND, now))
  }

  /**
   * The slot `next_available_message` hands out: the first inactive one if there is one, otherwise
   * the one updated longest ago, the first of several with the same time. The source asserts the
   * slice is non-empty.
   */
  function NextAvailableIndex(metas: seq<MessageMeta>, now: nat): (i: nat)
    requires |metas| > 0
    ensures i < |metas|
    ensures (exists j :: 0 <= j < |metas| && !IsActive(metas[j], now)) ==>
              !IsActive(metas[i], now) && forall j :: 0 <= j < i ==> IsActive(metas[j], now)
    ensures (forall j :: 0 <= j < |metas| ==> IsActive(metas[j], now)) ==>
              (forall j :: 0 <= j < |metas| ==> metas[i].updatedAt <= metas[j].updatedAt)
              && (forall j :: 0 <= j < i ==> metas[i].updatedAt < metas[j].updatedAt)
  {
    match FirstWhere(metas, m => !IsActive(m, now))
    case Some(k) => k
    case None => MinByKey(metas, _ => true, (m: MessageMeta) => m.updatedAt).value
  }

  /** Kept by the read path: active and updated after the last message shown. */
  predicate Newer(m: MessageMeta, last: nat, now: nat)
  {
    IsActive(m, now) && m.updatedAt > last
  }

  /**
   * `next_display_message_generic` over the chained slots (texts first, then images), as an index
   * into the chain: the oldest active slot newer than `last`; if there is none, the oldest active slot;
   * `None` when no slot is active. Ties go to the earlier slot.
   */
  function NextDisplayIndex(all: seq<MessageMeta>, last: nat, now: nat): (r: Option<nat>)
    ensures r.None? <==> forall i :: 0 <= i < |all| ==> !IsActive(all[i], now)
    ensures r.Some? ==> r.value < |all| && IsActive(all[r.value], now)
  {
    var key := (m: MessageMeta) => m.updatedAt;
    var latest := MinByKey(all, m => Newer(m, last, now), key);
    if latest.Some? then latest
    else MinByKey(all, m => IsActive(m, now), key)
  }

  /**
   * Which active slot `NextDisplayIndex` picks: the oldest of those newer than `last`, the first
   * of several with that time; when none is newer, the oldest active slot, again the first.
   */
  lemma NextDisplayIndexOrder(all: seq<MessageMeta>, last: nat, now: nat)
    ensures (exists i :: 0 <= i < |all| && Newer(all[i], last, now)) ==>
              var r := NextDisplayIndex(all, last, now);
              r.Some? && r.value < |all| && Newer(all[r.value], last, now)
              && (forall i :: 0 <= i < |all| && Newer(all[i], last, now) ==> all[r.value].updatedAt <= all[i].updatedAt)
              && (forall i :: 0 <= i < r.value && Newer(all[i], last, now) ==> all[r.value].updatedAt < all[i].updatedAt)
    ensures (forall i :: 0 <= i < |all| ==> !Newer(all[i], last, now)) && NextDisplayIndex(all, last, now).Some? ==>
              var r := NextDisplayIndex(all, last, now);
              r.value < |all|
              && (forall i :: 0 <= i < |all| && IsActive(all[i], now) ==> all[r.value].updatedAt <= all[i].updatedAt)
              && (forall i :: 0 <= i < r.value && IsActive(all[i], now) ==> all[r.value].updatedAt < all[i].updatedAt)
  {
  }

  /** Which slot the read path returned: `DisplayMessage::Text` or `DisplayMessage::Image`. */
  datatype DisplayRef = TextSlot(index: nat) | ImageSlot(index: nat)

  /**
   * The cache, allocated once with all slots fresh. Slots are values in two fixed arrays; the
   * write path replaces a slot's data, `SetTextMeta`/`SetImageMeta` its metadata.
   */
  class Messages {
    const texts: array<Message<TextData>>
    const images: array<Message<ImageData>>

    ghost predicate Valid()
      reads this, texts, images
    {
      texts.Length == TEXT_MESSAGE_NUM && images.Length == IMAGE_MESSAGE_NUM
      && forall i :: 0 <= i < images.Length ==> |images[i].data.image| == Consts.IMAGE_BUFFER_SIZE
    }

    /** `Messages::new`: ten empty texts and two black images, none of them active. */
    constructor ()
      ensures Valid() && fresh(texts) && fresh(images)
      ensures forall i :: 0 <= i < texts.Length ==> texts[i] == Message(TextData(""), NewMeta())
      ensures forall i :: 0 <= i < images.Length ==>
                images[i] == Message(ImageData(Zeros(Consts.IMAGE_BUFFER_SIZE)), NewMeta())
    {
      texts := new Message<TextData>[TEXT_MESSAGE_NUM](_ => Message(TextData(""), NewMeta()));
      images := new Message<ImageData>[IMAGE_MESSAGE_NUM](_ => Message(ImageData(Zeros(Consts.IMAGE_BUFFER_SIZE)), NewMeta()));
    }

    function TextMetas(): (r: seq<MessageMeta>)
      reads this, texts
      ensures |r| == texts.Length && forall i :: 0 <= i < texts.Length ==> r[i] == texts[i].meta
    {
      seq(texts.Length, i reads texts requires 0 <= i < texts.Length => texts[i].meta)
    }

    function ImageMetas(): (r: seq<MessageMeta>)
      reads this, images
      ensures |r| == images.Length && forall i :: 0 <= i < images.Length ==> r[i] == images[i].meta
    {
      seq(images.Length, i reads images requires 0 <= i < images.Length => images[i].meta)
    }

    /** The chain `texts.iter().chain(images.iter())` the read path walks. */
    function AllMetas(): (r: seq<MessageMeta>)
      reads this, texts, images
      ensures |r| == texts.Length + images.Length
    {
      TextMetas() + ImageMetas()
    }

    /** The metadata of the slot a `DisplayRef` names. */
    function MetaOf(d: DisplayRef): MessageMeta
      reads this, texts, images
      requires d.TextSlot? ==> d.index < texts.Length
      requires d.ImageSlot? ==> d.index < images.Length
    {
      match d
      case TextSlot(i) => texts[i].meta
      case ImageSlot(i) => images[i].meta
    }

    /**
     * `next_display_message_generic(last_message_time)`: the slot chosen by `NextDisplayIndex`
     * over the chained metadata, named as a text or an image slot.
     */
    function NextDisplayMessage(last: nat, now: nat): (r: Option<DisplayRef>)
      reads this, texts, images
      ensures r.None? <==> forall i :: 0 <= i < |AllMetas()| ==> !IsActive(AllMetas()[i], now)
      ensures r.Some? && r.value.TextSlot? ==> r.value.index < texts.Length
      ensures r.Some? && r.value.ImageSlot? ==> r.value.index < images.Length
      ensures r.Some? ==> exists k :: NextDisplayIndex(AllMetas(), last, now) == Some(k)
                            && k < |AllMetas()| && AllMetas()[k] == MetaOf(r.value)
      ensures r.Some? && r.value.TextSlot? ==> NextDisplayIndex(AllMetas(), last, now) == Some(r.value.index)
      ensures r.Some? && r.value.ImageSlot? ==>
                NextDisplayIndex(AllMetas(), last, now) == Some(texts.Length + r.value.index)
    {
      var all := AllMetas();
      match NextDisplayIndex(all, last, now)
      case None => None
      case Some(k) =>
        if k < texts.Length then Some(TextSlot(k)) else Some(ImageSlot(k - texts.Length))
    }

    /** `next_available_text`: choose a text slot to overwrite and empty its text. */
    method NextAvailableText(now: nat) returns (i: nat)
      requires Valid()
      modifies texts
      ensures Valid()
      ensures i == NextAvailableIndex(old(TextMetas()), now) && i < texts.Length
      ensures texts[i] == Message(TextData(""), old(texts[i].meta))
      ensures forall j :: 0 <= j < texts.Length && j != i ==> texts[j] == old(texts[j])
    {
      i := NextAvailableIndex(TextMetas(), now);
      texts[i] := texts[i].(data := TextData(""));
    }

    /** `next_available_image`: choose an image slot to overwrite and fill its image with zeros. */
    method NextAvailableImage(now: nat) returns (i: nat)
      requires Valid()
      modifies images
      ensures Valid()
      ensures i == NextAvailableIndex(old(ImageMetas()), now) && i < images.Length
      ensures images[i] == Message(ImageData(Zeros(Consts.IMAGE_BUFFER_SIZE)), old(images[i].meta))
      ensures forall j :: 0 <= j < images.Length && j != i ==> images[j] == old(images[j])
    {
      i := NextAvailableIndex(ImageMetas(), now);
      images[i] := images[i].(data := ImageData(Zeros(Consts.IMAGE_BUFFER_SIZE)));
    }

    /** `set_meta` on text slot `i`. */
    method SetTextMeta(i: nat, update: Pico.Update, now: nat)
      requires Valid() && i < texts.Length
      modifies texts
      ensures Valid()
      ensures texts[i] == SetMeta(old(texts[i]), update, now)
      ensures forall j :: 0 <= j < texts.Length && j != i ==> texts[j] == old(texts[j])
    {
      texts[i] := SetMeta(texts[i], update, now);
    }

    /** `set_meta` on image slot `i`. */
    method SetImageMeta(i: nat, update: Pico.Update, now: nat)
      requires Valid() && i < images.Length
      modifies images
      ensures Valid()
      ensures images[i] == SetMeta(old(images[i]), update, now)
      ensures forall j :: 0 <= j < images.Length && j != i ==> images[j] == old(images[j])
    {
      images[i] := SetMeta(images[i], update, now);
    }
  }
}
