/** The message timeline and decode session of frontend/src/components/MessageView.tsx:
    loading, the live-insert merge, sending a text message, the participant check,
    and the decrypt dialog with its payload resolution and result handling. */
module Timeline {
  import opened Wrappers
  import opened Records
  import opened Text

  datatype Timeline = Timeline(
    messages: seq<Message>,
    loading: bool,
    newMessage: string,
    sending: bool,
    hovered: Option<string>,
    decrypting: Option<Message>,
    secretKey: string,
    decryptedText: Option<string>,
    decryptError: Option<string>)

  /** The `useState` initial values. */
  function Initial(): Timeline
  {
    Timeline([], true, "", false, None, None, "", None, None)
  }

  /** `loadMessages`: the fetched rows (null counts as none) replace the list, and
      loading is over. */
  function LoadMessages(t: Timeline, data: Option<seq<Message>>): (r: Timeline)
    ensures !r.loading
    ensures data.Some? ==> r.messages == data.value
    ensures data.None? ==> r.messages == []
  {
    t.(messages := data.GetOr([]), loading := false)
  }

  /** `prev.some((m) => m.id === id)`. */
  predicate HasId(msgs: seq<Message>, id: string)
  {
    msgs != [] && (msgs[0].id == id || HasId(msgs[1..], id))
  }

  lemma {:induction false} HasIdIff(msgs: seq<Message>, id: string)
    ensures HasId(msgs, id) <==> exists i :: 0 <= i < |msgs| && msgs[i].id == id
  {
    if msgs != [] {
      HasIdIff(msgs[1..], id);
      if exists i :: 0 <= i < |msgs| && msgs[i].id == id {
        var i :| 0 <= i < |msgs| && msgs[i].id == id;
        if i > 0 {
          assert msgs[1..][i - 1].id == id;
        }
      }
      if HasId(msgs[1..], id) {
        var i :| 0 <= i < |msgs[1..]| && msgs[1..][i].id == id;
        assert msgs[i + 1].id == id;
      }
    }
  }

  /** The realtime INSERT callback: a message whose id is already listed is dropped,
      any other is appended at the end (the list is not re-sorted). */
  function LiveInsert(msgs: seq<Message>, m: Message): (r: seq<Message>)
    ensures HasId(msgs, m.id) ==> r == msgs
    ensures !HasId(msgs, m.id) ==> r == msgs + [m]
  {
    if HasId(msgs, m.id) then msgs else msgs + [m]
  }

  predicate UniqueIds(msgs: seq<Message>)
  {
    forall i, j :: 0 <= i < j < |msgs| ==> msgs[i].id != msgs[j].id
  }

  /** The merge keeps ids unique, always leaves `m.id` listed, grows the list by at most
      one, and keeps every earlier message at its place. */
  lemma LiveInsertProperties(msgs: seq<Message>, m: Message)
    requires UniqueIds(msgs)
    ensures var r := LiveInsert(msgs, m);
      && UniqueIds(r)
      && HasId(r, m.id)
      && |msgs| <= |r| <= |msgs| + 1
      && r[..|msgs|] == msgs
      && (|r| == |msgs| + 1 <==> !HasId(msgs, m.id))
  {
    HasIdIff(msgs, m.id);
    var r := LiveInsert(msgs, m);
    HasIdIff(r, m.id);
    if !HasId(msgs, m.id) {
      assert r[|msgs|] == m;
    }
  }

  /** Delivering the same row twice has the effect of delivering it once. */
  lemma LiveInsertIdempotent(msgs: seq<Message>, m: Message)
    ensures LiveInsert(LiveInsert(msgs, m), m) == LiveInsert(msgs, m)
  {
    if !HasId(msgs, m.id) {
      HasIdIff(msgs + [m], m.id);
      assert (msgs + [m])[|msgs|].id == m.id;
    }
  }

  /** A stream of realtime inserts, merged one after the other. */
  function Merge(msgs: seq<Message>, events: seq<Message>): seq<Message>
    decreases |events|
  {
    if events == [] then msgs else Merge(LiveInsert(msgs, events[0]), events[1..])
  }

  /** After any stream of inserts the ids are still unique, the loaded messages keep
      their places at the front, and every delivered id is listed. */
  lemma {:induction false} MergeProperties(msgs: seq<Message>, events: seq<Message>)
    requires UniqueIds(msgs)
    ensures var r := Merge(msgs, events);
      && UniqueIds(r)
      && |r| >= |msgs| && r[..|msgs|] == msgs
      && forall k :: 0 <= k < |events| ==> HasId(r, events[k].id)
    decreases |events|
  {
    if events != [] {
      var next := LiveInsert(msgs, events[0]);
      LiveInsertProperties(msgs, events[0]);
      MergeProperties(next, events[1..]);
      var r := Merge(next, events[1..]);
      assert r[..|msgs|] == r[..|next|][..|msgs|];
      forall k | 0 <= k < |events|
        ensures HasId(r, events[k].id)
      {
        if k == 0 {
          HasIdExtends(next, r, events[0].id);
        } else {
          assert events[k] == events[1..][k - 1];
        }
      }
    }
  }

  /** A load followed by any stream of live inserts: whatever the list held before, the
      fetched rows (with distinct ids) stay at the front in their order, and every
      delivered id is listed. */
  lemma LoadThenLive(t: Timeline, data: Option<seq<Message>>, events: seq<Message>)
    requires UniqueIds(data.GetOr([]))
    ensures var loaded := data.GetOr([]);
      var r := Merge(LoadMessages(t, data).messages, events);
      && |r| >= |loaded| && r[..|loaded|] == loaded
      && UniqueIds(r)
      && forall k :: 0 <= k < |events| ==> HasId(r, events[k].id)
  {
    MergeProperties(data.GetOr([]), events);
  }

  /** An id listed in a prefix is listed in the whole. */
  lemma HasIdExtends(p: seq<Message>, r: seq<Message>, id: string)
    requires |r| >= |p| && r[..|p|] == p && HasId(p, id)
    ensures HasId(r, id)
  {
    HasIdIff(p, id);
    var i :| 0 <= i < |p| && p[i].id == id;
    assert r[i] == r[..|p|][i];
    HasIdIff(r, id);
  }

  /** `sendTextMessage` for the conversation `conversationId`, with `user` the result
      of `getUser`: the writes it issues and the timeline afterwards. */
  datatype SendResult = SendResult(writes: seq<StoreWrite>, timeline: Timeline)

  function SendTextMessage(t: Timeline, conversationId: string, user: Option<UserId>): SendResult
  {
    if IsBlank(t.newMessage) then SendResult([], t)
    else
      match user
      case None => SendResult([], t.(sending := true))
      case Some(u) =>
        var row := NewMessage(conversationId, u, TextKind, Some(t.newMessage), ENCRYPTED_MESSAGE, Some(TextStego), u);
        SendResult([InsertMessage(row), UpdateConversationSummary(conversationId, ENCRYPTED_MESSAGE, TextKind)],
                   t.(newMessage := "", sending := false))
  }

  /** Input made only of white space (or nothing) sends nothing and changes nothing;
      other input is stored verbatim as the hidden content, the conversation summary
      becomes "Encrypted message", and the input box is cleared. Without a user the
      button stays disabled. */
  lemma SendTextMessageEffect(t: Timeline, conversationId: string, user: Option<UserId>)
    ensures var out := SendTextMessage(t, conversationId, user);
      && (AllSpace(t.newMessage) ==> out == SendResult([], t))
      && (!AllSpace(t.newMessage) && user.None? ==> out.writes == [] && out.timeline.sending)
      && (!AllSpace(t.newMessage) && user.Some? ==>
            && |out.writes| == 2
            && out.writes[0].InsertMessage?
            && out.writes[0].row.hiddenContent == Some(t.newMessage)
            && out.writes[0].row.conversationId == conversationId
            && out.writes[0].row.senderId == user.value
            && out.writes[1] == UpdateConversationSummary(conversationId, ENCRYPTED_MESSAGE, TextKind)
            && out.timeline.newMessage == "" && !out.timeline.sending)
  {
    BlankIff(t.newMessage);
  }

  /** The participant check: it throws exactly when a user is signed in and is neither
      participant of the conversation. */
  function CheckAuthorization(c: Conversation, user: Option<UserId>): (err: Option<string>)
    ensures err.Some? ==> err.value == "Unauthorized conversation access"
  {
    if user.Some? && c.user1 != user.value && c.user2 != user.value
    then Some("Unauthorized conversation access") else None
  }

  /** A signed-in user passes the check exactly for the conversations between them and
      someone: those the directory and the wizard look up or create. */
  lemma AuthorizedIffParticipant(c: Conversation, u: UserId)
    ensures CheckAuthorization(c, Some(u)).None? <==> Between(c, u, if c.user1 == u then c.user2 else c.user1)
  {
  }

  /** The messages that carry the hover area of the Decrypt button: files and messages
      with non-empty hidden content. */
  predicate Hoverable(m: Message)
  {
    m.kind == FileKind || (m.hiddenContent.Some? && m.hiddenContent.value != "")
  }

  /** The Decrypt button of a listed message: shown while the mouse is over a hoverable
      message, and only when the message names a method. */
  predicate DecryptOffered(t: Timeline, m: Message)
  {
    && m in t.messages
    && Hoverable(m)
    && t.hovered == Some(m.id)
    && m.stegoMethod.Some?
  }

  /** The button's click: the dialog opens on the message with an empty key and no
      plaintext; a previous error is left as it was. */
  function OpenDecrypt(t: Timeline, m: Message): (r: Timeline)
    requires DecryptOffered(t, m)
    ensures r.decrypting == Some(m) && r.secretKey == "" && r.decryptedText == None
    ensures r.decryptError == t.decryptError && r.messages == t.messages
  {
    t.(decrypting := Some(m), secretKey := "", decryptedText := None)
  }

  /** Where the stego text comes from: the hidden content when it is non-empty, else
      the uploaded file when there is a path, else nowhere. */
  datatype Payload = Inline(text: string) | Download(path: string) | NoPayload

  function ResolvePayload(m: Message): Payload
  {
    if m.hiddenContent.Some? && m.hiddenContent.value != "" then Inline(m.hiddenContent.value)
    else if m.fileUrl.Some? && m.fileUrl.value != "" then Download(m.fileUrl.value)
    else NoPayload
  }

  /** The form posted to the character-level decode endpoint: `stego_file` as
      "stego.txt" and `secret_key`. */
  datatype DecodeRequest = DecodeRequest(stegoText: string, secretKey: string)

  /** The decode `fetch` and `res.json()`: a thrown error with its message, or a JSON
      body with the response's `ok` flag, its `detail` and its `secret_text`. */
  datatype DecodeReply =
    | ReplyThrown(message: string)
    | ReplyJson(ok: bool, detail: Option<string>, secretText: Option<string>)

  datatype DecryptResult = DecryptResult(request: Option<DecodeRequest>, timeline: Timeline)

  /** `handleDecrypt`. `download` is the store's answer to downloading the file (null
      when it fails) and is consulted only for a file payload; `reply` is consulted only
      when a request is posted. */
  function HandleDecrypt(t: Timeline, download: Option<string>, reply: DecodeReply): DecryptResult
  {
    match t.decrypting
    case None => DecryptResult(None, t)
    case Some(m) =>
      var cleared := t.(decryptError := None, decryptedText := None);
      var stego: Result<string, string> :=
        match ResolvePayload(m)
        case Inline(s) => Success(s)
        case Download(_) => if download.Some? then Success(download.value) else Failure("Failed to load file")
        case NoPayload => Failure("Invalid stego message");
      match stego
      case Failure(e) => DecryptResult(None, cleared.(decryptError := Some(e)))
      case Success(s) =>
        var req := DecodeRequest(s, t.secretKey);
        match reply
        case ReplyThrown(e) => DecryptResult(Some(req), cleared.(decryptError := Some(e)))
        case ReplyJson(ok, detail, secret) =>
          if !ok then
            var msg := if detail.Some? && detail.value != "" then detail.value else "Decryption failed";
            DecryptResult(Some(req), cleared.(decryptError := Some(msg)))
          else DecryptResult(Some(req), cleared.(decryptedText := secret))
  }

  /** The decrypt outcomes. Without an open dialog nothing happens. A request is posted
      exactly when a payload is found: the non-empty hidden content first, then the
      downloaded file; otherwise the error names what was missing. A plaintext appears
      exactly from an ok reply and is its `secret_text`, with the error cleared; a non-ok
      reply shows its detail or "Decryption failed", and a thrown request its message.
      A plaintext and an error are never shown together. The timeline's messages never
      change. */
  lemma HandleDecryptOutcomes(t: Timeline, download: Option<string>, reply: DecodeReply)
    ensures var out := HandleDecrypt(t, download, reply);
      && out.timeline.messages == t.messages
      && (t.decrypting.None? ==> out == DecryptResult(None, t))
      && (t.decrypting.Some? ==>
            var p := ResolvePayload(t.decrypting.value);
            && (out.request.Some? <==> p.Inline? || (p.Download? && download.Some?))
            && (p.Inline? ==> out.request == Some(DecodeRequest(p.text, t.secretKey)))
            && (p.NoPayload? ==> out.timeline.decryptError == Some("Invalid stego message"))
            && (p.Download? && download.None? ==> out.timeline.decryptError == Some("Failed to load file"))
            && (p.Download? && download.Some? ==> out.request == Some(DecodeRequest(download.value, t.secretKey)))
            && (out.request.None? ==> out.timeline.decryptedText == None && out.timeline.decryptError.Some?)
            && (out.timeline.decryptedText.Some? ==>
                  reply.ReplyJson? && reply.ok && out.timeline.decryptedText == reply.secretText)
            && (out.request.Some? && reply.ReplyJson? && reply.ok ==>
                  out.timeline.decryptedText == reply.secretText && out.timeline.decryptError == None)
            && (out.request.Some? && reply.ReplyJson? && !reply.ok ==>
                  out.timeline.decryptedText == None
                  && out.timeline.decryptError ==
                       Some(if reply.detail.Some? && reply.detail.value != "" then reply.detail.value else "Decryption failed"))
            && (out.request.Some? && reply.ReplyThrown? ==>
                  out.timeline.decryptedText == None && out.timeline.decryptError == Some(reply.message))
            && !(out.timeline.decryptedText.Some? && out.timeline.decryptError.Some?))
  {
  }

  /** Hidden content wins over an uploaded file: a message carrying both is decoded from
      its hidden content, and the download is never consulted. */
  lemma HiddenContentFirst(t: Timeline, m: Message, d1: Option<string>, d2: Option<string>, reply: DecodeReply)
    requires t.decrypting == Some(m)
    requires m.hiddenContent.Some? && m.hiddenContent.value != ""
    ensures HandleDecrypt(t, d1, reply) == HandleDecrypt(t, d2, reply)
    ensures HandleDecrypt(t, d1, reply).request == Some(DecodeRequest(m.hiddenContent.value, t.secretKey))
  {
  }

  /** What the user and the realtime channel do to the page, one at a time: a load, a
      live insert, the mouse entering or leaving a message, typing, the Send button, a
      click on a message's Decrypt button, typing the key, the dialog's Decrypt with the
      download and the decode reply it meets, and the dialog's Close. */
  datatype Event =
    | Loaded(data: Option<seq<Message>>)
    | Inserted(m: Message)
    | MouseEnter(m: Message)
    | MouseLeave
    | TypeMessage(text: string)
    | Send(conversationId: string, user: Option<UserId>)
    | ClickDecrypt(m: Message)
    | TypeKey(key: string)
    | Decrypt(download: Option<string>, reply: DecodeReply)
    | CloseDialog

  /** One event. The hover area exists only on listed hoverable messages, the Send
      button is disabled while sending, the Decrypt button only exists where it is
      offered, and the key field only while the dialog is open. */
  function Step(t: Timeline, e: Event): Timeline
  {
    match e
    case Loaded(data) => LoadMessages(t, data)
    case Inserted(m) => t.(messages := LiveInsert(t.messages, m))
    case MouseEnter(m) => if m in t.messages && Hoverable(m) then t.(hovered := Some(m.id)) else t
    case MouseLeave => t.(hovered := None)
    case TypeMessage(text) => t.(newMessage := text)
    case Send(c, user) => if t.sending then t else SendTextMessage(t, c, user).timeline
    case ClickDecrypt(m) => if DecryptOffered(t, m) then OpenDecrypt(t, m) else t
    case TypeKey(key) => if t.decrypting.Some? then t.(secretKey := key) else t
    case Decrypt(download, reply) => HandleDecrypt(t, download, reply).timeline
    case CloseDialog => t.(decrypting := None)
  }

  function Run(t: Timeline, events: seq<Event>): Timeline
    decreases |events|
  {
    if events == [] then t else Run(Step(t, events[0]), events[1..])
  }

  /** The dialog is only ever open on a hoverable message that names a method, and it
      never shows a plaintext and an error together. */
  predicate DialogSound(t: Timeline)
  {
    && (t.decrypting.Some? ==> Hoverable(t.decrypting.value) && t.decrypting.value.stegoMethod.Some?)
    && !(t.decryptedText.Some? && t.decryptError.Some?)
  }

  lemma StepKeepsDialogSound(t: Timeline, e: Event)
    requires DialogSound(t)
    ensures DialogSound(Step(t, e))
  {
    match e
    case Decrypt(download, reply) => DecryptKeepsDialogSound(t, download, reply);
    case Send(c, user) => SendKeepsDialogSound(t, c, user);
    case _ =>
  }

  lemma SendKeepsDialogSound(t: Timeline, c: string, user: Option<UserId>)
    requires DialogSound(t)
    ensures DialogSound(SendTextMessage(t, c, user).timeline)
  {
  }

  lemma DecryptKeepsDialogSound(t: Timeline, download: Option<string>, reply: DecodeReply)
    requires DialogSound(t)
    ensures DialogSound(HandleDecrypt(t, download, reply).timeline)
  {
    HandleDecryptOutcomes(t, download, reply);
  }

  /** From the page's initial state, whatever happens, the dialog is sound. */
  lemma {:induction false} RunKeepsDialogSound(t: Timeline, events: seq<Event>)
    requires DialogSound(t)
    ensures DialogSound(Run(t, events))
    decreases |events|
  {
    if events != [] {
      StepKeepsDialogSound(t, events[0]);
      RunKeepsDialogSound(Step(t, events[0]), events[1..]);
    }
  }

  lemma InitialDialogSound()
    ensures DialogSound(Initial())
    ensures forall events :: DialogSound(Run(Initial(), events))
  {
    forall events ensures DialogSound(Run(Initial(), events)) {
      RunKeepsDialogSound(Initial(), events);
    }
  }
}
