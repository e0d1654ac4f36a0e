/**
 * The server's message store and message contents (server/src/message.rs): a text is accepted when
 * its UTF-8 encoding fits the device's text buffer, a long text is cut into buffer-sized chunks, a
 * content announces itself to the device as an `UpdateKind`, and `Messages` is an append-only vector
 * answering the repository queries.
 */
module ServerMessage {
  import opened Wrappers
  import opened Bytes
  import opened Types
  import opened Repository
  import Consts
  import Pico
  import Utf8

  /** `MessageContent::new_text`: accepted iff the text's byte length is at most `TEXT_BUFFER_SIZE`. */
  function NewText(text: seq<byte>): (r: Result<MessageContent, string>)
    ensures r.Ok? <==> |text| <= Consts.TEXT_BUFFER_SIZE
    ensures r.Ok? ==> r.value == Text(text)
  {
    if |text| <= Consts.TEXT_BUFFER_SIZE then Ok(Text(text)) else Err("Text message too long.")
  }

  /** `From<&MessageContent> for UpdateKind`: a text announces its byte length (cast to `u32`). */
  function KindOf(c: MessageContent): (k: Pico.UpdateKind)
    ensures c.Image? ==> k == Pico.Image
    ensures c.Text? ==> k.Text? && k.size == |c.text| % U32_LIMIT
  {
    match c
    case Text(text) => Pico.Text(|text| % U32_LIMIT)
    case Image(_) => Pico.Image
  }

  /**
   * Content made by `new_text` passes the device's `check_valid`, and the payload it announces is
   * exactly the bytes the server sends for it.
   */
  lemma NewTextPassesDeviceCheck(text: seq<byte>, lifetimeSec: u32, id: UpdateID)
    requires NewText(text).Ok?
    ensures Pico.CheckValid(Pico.CheckUpdateResult.Update(Pico.Update.Update(lifetimeSec, id, KindOf(NewText(text).value)))).Ok?
    ensures Pico.Size(KindOf(NewText(text).value)) == |text|
  {
  }

  const N: nat := Consts.TEXT_BUFFER_SIZE

  /** The full `TEXT_BUFFER_SIZE`-byte slices `new_texts` takes from the front while more than that remains. */
  function FullChunks(bytes: seq<byte>): (r: seq<seq<byte>>)
    ensures forall k :: 0 <= k < |r| ==> |r[k]| == N
    decreases |bytes|
  {
    if |bytes| <= N then [] else [bytes[..N]] + FullChunks(bytes[N..])
  }

  /** How many chunks that is. */
  function ChunkCount(len: nat): nat
  {
    if len <= N then 0 else (len - 1) / N
  }

  /**
   * The chunks are consecutive slices of the input, and they stop short of its end: the last
   * 1 to `TEXT_BUFFER_SIZE` bytes of any non-empty text are in no chunk.
   */
  lemma {:induction false} FullChunksShape(bytes: seq<byte>)
    ensures |FullChunks(bytes)| == ChunkCount(|bytes|)
    ensures forall k :: 0 <= k < |FullChunks(bytes)| ==> FullChunks(bytes)[k] == bytes[k * N..(k + 1) * N]
    ensures |bytes| > 0 ==> |FullChunks(bytes)| * N < |bytes| <= |FullChunks(bytes)| * N + N
    decreases |bytes|
  {
    if |bytes| > N {
      var rest := bytes[N..];
      FullChunksShape(rest);
      var r := FullChunks(bytes);
      assert r == [bytes[..N]] + FullChunks(rest);
      forall k | 0 <= k < |r|
        ensures r[k] == bytes[k * N..(k + 1) * N]
      {
        if k > 0 {
          assert r[k] == FullChunks(rest)[k - 1] == rest[(k - 1) * N..k * N];
        }
      }
      assert (|bytes| - 1) / N == (|rest| - 1) / N + 1;
    }
  }

  /**
   * `MessageContent::new_texts`, as written: while more than `TEXT_BUFFER_SIZE` bytes remain, cut off
   * that many and convert them with `str::from_utf8(..).unwrap()`, which panics when the cut splits a
   * character. The loop ends without emitting what is left.
   */
  method NewTextsAsWritten(text: seq<byte>) returns (r: Outcome<seq<MessageContent>>)
    ensures r.Returns? <==> forall k :: 0 <= k < |FullChunks(text)| ==> Utf8.Valid(FullChunks(text)[k])
    ensures r.Returns? ==> |r.value| == |FullChunks(text)|
    ensures r.Returns? ==> forall k :: 0 <= k < |r.value| ==> r.value[k] == Text(FullChunks(text)[k])
  {
    var texts: seq<MessageContent> := [];
    var bytes := text;
    ghost var done: seq<seq<byte>> := [];
    while |bytes| > N
      invariant done + FullChunks(bytes) == FullChunks(text)
      invariant |texts| == |done| && forall k :: 0 <= k < |done| ==> texts[k] == Text(done[k]) && Utf8.Valid(done[k])
      decreases |bytes|
    {
      var chunk := bytes[..N];
      assert FullChunks(bytes) == [chunk] + FullChunks(bytes[N..]);
      if !Utf8.Valid(chunk) {
        assert FullChunks(text)[|done|] == chunk;
        return Panics("called `Result::unwrap()` on an `Err` value: Utf8Error");
      }
      texts := texts + [Text(chunk)];
      done := done + [chunk];
      bytes := bytes[N..];
    }
    assert FullChunks(bytes) == [];
    assert done == FullChunks(text);
    r := Returns(texts);
  }

  /** A text whose first chunk boundary falls inside a character makes `new_texts` panic. */
  lemma SplitCharacterPanics(text: seq<byte>)
    requires Utf8.Valid(text) && |text| > N && Utf8.Cont(text[N])
    ensures !Utf8.Valid(FullChunks(text)[0])
  {
    assert FullChunks(text)[0] == text[..N];
    if Utf8.Valid(text[..N]) {
      assert text == text[..N] + text[N..];
      Utf8.ValidSuffix(text[..N], text[N..]);
      Utf8.ValidStartsWell(text[N..]);
    }
  }

  /** A text of at most one buffer yields no chunk at all: "Hi" gives an empty vector. */
  lemma ShortTextIsDropped(text: seq<byte>)
    requires |text| <= N
    ensures FullChunks(text) == []
  {
  }

  /** The slices the loop evidently means to produce: full chunks, then whatever remains, if anything. */
  function AllChunks(bytes: seq<byte>): (r: seq<seq<byte>>)
    decreases |bytes|
  {
    if |bytes| == 0 then []
    else if |bytes| <= N then [bytes]
    else [bytes[..N]] + AllChunks(bytes[N..])
  }

  function Concat(chunks: seq<seq<byte>>): seq<byte>
  {
    if |chunks| == 0 then [] else chunks[0] + Concat(chunks[1..])
  }

  /** The corrected chunks cover the text exactly, each non-empty and at most one buffer long. */
  lemma {:induction false} AllChunksCover(bytes: seq<byte>)
    ensures Concat(AllChunks(bytes)) == bytes
    ensures forall k :: 0 <= k < |AllChunks(bytes)| ==> 0 < |AllChunks(bytes)[k]| <= N
    ensures forall k :: 0 <= k < |AllChunks(bytes)| - 1 ==> |AllChunks(bytes)[k]| == N
    decreases |bytes|
  {
    if |bytes| > N {
      AllChunksCover(bytes[N..]);
      var r := AllChunks(bytes);
      assert r[1..] == AllChunks(bytes[N..]);
      assert bytes == bytes[..N] + bytes[N..];
    } else if |bytes| > 0 {
      assert AllChunks(bytes)[1..] == [];
      assert bytes + [] == bytes;
    }
  }

  /** `new_texts` with the final chunk emitted too; every chunk becomes a text message. */
  method NewTexts(text: seq<byte>) returns (r: Outcome<seq<MessageContent>>)
    ensures r.Returns? <==> forall k :: 0 <= k < |AllChunks(text)| ==> Utf8.Valid(AllChunks(text)[k])
    ensures r.Returns? ==> |r.value| == |AllChunks(text)|
    ensures r.Returns? ==> forall k :: 0 <= k < |r.value| ==> r.value[k] == Text(AllChunks(text)[k])
  {
    var texts: seq<MessageContent> := [];
    var bytes := text;
    ghost var done: seq<seq<byte>> := [];
    while |bytes| > 0
      invariant done + AllChunks(bytes) == AllChunks(text)
      invariant |texts| == |done| && forall k :: 0 <= k < |done| ==> texts[k] == Text(done[k]) && Utf8.Valid(done[k])
      decreases |bytes|
    {
      var n := if |bytes| < N then |bytes| else N;
      var chunk := bytes[..n];
      if |bytes| <= N {
        assert chunk == bytes && bytes[n..] == [];
      }
      assert AllChunks(bytes) == [chunk] + AllChunks(bytes[n..]);
      if !Utf8.Valid(chunk) {
        assert AllChunks(text)[|done|] == chunk;
        return Panics("called `Result::unwrap()` on an `Err` value: Utf8Error");
      }
      texts := texts + [Text(chunk)];
      done := done + [chunk];
      bytes := bytes[n..];
    }
    assert done == AllChunks(text);
    r := Returns(texts);
  }

  /** Every chunk of the corrected split passes `new_text`, and none is lost. */
  lemma ChunksAreTexts(text: seq<byte>)
    ensures forall k :: 0 <= k < |AllChunks(text)| ==> NewText(AllChunks(text)[k]).Ok?
    ensures Concat(AllChunks(text)) == text
  {
    AllChunksCover(text);
  }

  /** `Message::new`: the lifetime is `lifetime.num_seconds() as u32`, which wraps modulo 2^32. */
  function NewMessage(id: UpdateID, receiver: DeviceID, sender: SenderID, createdAt: int,
                      lifetimeSeconds: int, content: MessageContent): (m: Message)
    ensures m.id == id && m.receiverId == receiver && m.senderId == sender
    ensures m.createdAt == createdAt && m.content == content
    ensures m.lifetimeSecs == lifetimeSeconds % U32_LIMIT
    ensures 0 <= lifetimeSeconds < U32_LIMIT ==> m.lifetimeSecs == lifetimeSeconds
  {
    Message(id, receiver, sender, createdAt, lifetimeSeconds % U32_LIMIT, content)
  }

  /** `Messages`: the append-only vector of messages. Writing it to disk is not modelled. */
  class Messages {
    var inner: seq<Message>

    /** `Messages::new` */
    constructor ()
      ensures inner == []
    {
      inner := [];
    }

    /** `add_message`: push at the end; nothing else changes. */
    method AddMessage(m: Message)
      modifies this
      ensures inner == old(inner) + [m]
    {
      inner := inner + [m];
    }

    function GetNextMessage(receiver: DeviceID, after: Option<UpdateID>): (r: Option<Message>)
      reads this
      ensures r.None? <==> forall i :: 0 <= i < |inner| ==> !Pending(inner[i], receiver, AfterTime(inner, after))
      ensures r.Some? ==> r.value.receiverId == receiver && Pending(r.value, receiver, AfterTime(inner, after))
      ensures r.Some? ==> r.value == inner[NextMessageIndex(inner, receiver, after).value]
    {
      Repository.GetNextMessage(inner, receiver, after)
    }

    function GetMessage(id: UpdateID): (r: Option<Message>)
      reads this
      ensures r.None? <==> forall i :: 0 <= i < |inner| ==> inner[i].id != id
      ensures r.Some? ==> r.value.id == id && r.value == inner[MessageIndex(inner, id).value]
    {
      Repository.GetMessage(inner, id)
    }

    function NextId(): (r: UpdateID)
      reads this
      ensures |inner| < U32_LIMIT ==> r.value == |inner|
    {
      Repository.NextId(inner)
    }
  }
}
