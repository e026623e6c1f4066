/** The encoding wizard of frontend/src/components/demo_trails/StegoWorkspace.tsx: the
    workspace state, its transitions (select method, continue, back, key generation,
    edits), the encode request it builds, and the "send securely" writes. Every handler
    is one sequential transition; the backend's answer and the store's answers are
    parameters. */
module Wizard {
  import opened Wrappers
  import opened Records
  import opened Text

  datatype CoverType = TextCover | ImageCover | AudioCover | VideoCover
  datatype TextAlgo = Character | Homoglyph | Word
  datatype InputMode = TextInput | FileInput

  /** A browser `File`: its name and its text. */
  datatype File = File(name: string, content: string)

  /** The labels of `steps`: "Cover Media", "Secret Text", "Secret Key", "Complete". */
  const STEP_COUNT: nat := 4
  const LAST_STEP: int := STEP_COUNT - 1

  datatype Workspace = Workspace(
    selectedMethod: Option<StegoMethod>,
    step: int,
    selectedCover: Option<CoverType>,
    textAlgo: TextAlgo,
    coverText: string,
    coverFile: Option<File>,
    inputMode: InputMode,
    secretText: string,
    secretKey: string,
    stegoResult: Option<string>,
    isProcessing: bool,
    errorMessage: Option<string>)

  /** The `useState` initial values. */
  function Initial(): Workspace
  {
    Workspace(None, 0, None, Character, "", None, TextInput, "", "", None, false, None)
  }

  /** `resetWorkspace`: every field back to its initial value except the method. */
  function Reset(w: Workspace): (r: Workspace)
    ensures r.selectedMethod == w.selectedMethod
  {
    Workspace(w.selectedMethod, 0, None, Character, "", None, TextInput, "", "", None, false, None)
  }

  /** Resetting forgets everything but the method: two workspaces with the same method
      reset to the same state, and resetting twice is resetting once. */
  lemma ResetForgets(w1: Workspace, w2: Workspace)
    requires w1.selectedMethod == w2.selectedMethod
    ensures Reset(w1) == Reset(w2)
    ensures Reset(Reset(w1)) == Reset(w1)
    ensures Reset(w1) == Initial().(selectedMethod := w1.selectedMethod)
  {
  }

  /** `handleMethodSelect`: a fresh workspace for the chosen method, whatever the progress
      before. */
  function SelectMethod(w: Workspace, m: StegoMethod): (r: Workspace)
    ensures r == Initial().(selectedMethod := Some(m))
  {
    Reset(w).(selectedMethod := Some(m))
  }

  /** `canContinue`: the gate of the Continue button at each step. The lengths are
      JavaScript lengths in UTF-16 code units. */
  predicate CanContinue(w: Workspace)
  {
    if w.step == 0 then w.selectedCover.Some?
    else if w.step == 1 then Utf16Length(w.secretText) > 0 && (Utf16Length(w.coverText) > 0 || w.coverFile.Some?)
    else if w.step == 2 then Utf16Length(w.secretKey) >= 4
    else true
  }

  /** The gate in terms of the strings themselves: a cover is chosen at step 0, the
      secret and the cover are non-empty at step 1, and the key has at least four
      characters (or fewer, if some lie above U+FFFF) at step 2. */
  lemma CanContinueIff(w: Workspace)
    ensures w.step == 0 ==> (CanContinue(w) <==> w.selectedCover.Some?)
    ensures w.step == 1 ==> (CanContinue(w) <==> w.secretText != [] && (w.coverText != [] || w.coverFile.Some?))
    ensures w.step == 2 && |w.secretKey| >= 4 ==> CanContinue(w)
    ensures w.step == 2 && Utf16Length(w.secretKey) == |w.secretKey| ==> (CanContinue(w) <==> |w.secretKey| >= 4)
    ensures w.step == 2 && 2 * |w.secretKey| < 4 ==> !CanContinue(w)
  {
  }

  /** The answer to the encode `fetch`: a thrown error (network failure) with its
      message, or an HTTP response with its `ok` flag and its body text. */
  datatype EncodeResponse = Thrown(message: string) | Answered(ok: bool, body: string)

  predicate EncodeFailed(resp: EncodeResponse)
  {
    resp.Thrown? || !resp.ok
  }

  /** `handleEncodeTextStego`, from `setIsProcessing(true)` to the `finally`: a non-ok
      response throws "Encoding failed", an error's message is shown, and an ok body
      becomes the stego result. */
  function HandleEncode(w: Workspace, resp: EncodeResponse): (r: Workspace)
    ensures !r.isProcessing && r.step == w.step
    ensures EncodeFailed(resp) ==> r.stegoResult == w.stegoResult && r.errorMessage.Some?
    ensures !EncodeFailed(resp) ==> r.stegoResult == Some(resp.body) && r.errorMessage == None
  {
    var started := w.(isProcessing := true, errorMessage := None);
    var settled :=
      match resp
      case Thrown(msg) => started.(errorMessage := Some(msg))
      case Answered(ok, body) =>
        if !ok then started.(errorMessage := Some("Encoding failed"))
        else started.(stegoResult := Some(body));
    settled.(isProcessing := false)
  }

  /** `handleContinue`: at step 2 with the text method the encode runs first, and then
      the step advances whenever it is below the last, whatever the encode's outcome. */
  function Continue(w: Workspace, resp: EncodeResponse): (r: Workspace)
    ensures r.step == (if w.step < LAST_STEP then w.step + 1 else w.step)
    ensures w.step != 2 || w.selectedMethod != Some(TextStego) ==> r == w.(step := r.step)
  {
    var encoded := if w.step == 2 && w.selectedMethod == Some(TextStego) then HandleEncode(w, resp) else w;
    if w.step < LAST_STEP then encoded.(step := w.step + 1) else encoded
  }

  /** A failed encode still moves the wizard to the Complete step: the error is shown,
      the result stays as it was, and processing is over. */
  lemma EncodeFailureStillAdvances(w: Workspace, resp: EncodeResponse)
    requires w.step == 2 && w.selectedMethod == Some(TextStego)
    requires EncodeFailed(resp)
    ensures var r := Continue(w, resp);
      && r.step == 3
      && r.stegoResult == w.stegoResult
      && r.errorMessage == Some(if resp.Thrown? then resp.message else "Encoding failed")
      && !r.isProcessing
      && r.secretText == w.secretText && r.secretKey == w.secretKey
  {
  }

  /** A successful encode stores exactly the body of the response and clears the error. */
  lemma EncodeSuccessStoresBody(w: Workspace, body: string)
    requires w.step == 2 && w.selectedMethod == Some(TextStego)
    ensures var r := Continue(w, Answered(true, body));
      r.step == 3 && r.stegoResult == Some(body) && r.errorMessage == None && !r.isProcessing
  {
  }

  /** `handleBack`: from the last step or the first the workspace is reset and the method
      deselected; otherwise the step goes back by one. */
  function Back(w: Workspace): (r: Workspace)
    ensures w.step == LAST_STEP || w.step == 0 ==> r == Initial()
    ensures w.step != LAST_STEP && w.step != 0 ==> r == w.(step := w.step - 1)
  {
    if w.step == LAST_STEP then Reset(w).(selectedMethod := None)
    else if w.step == 0 then Reset(w).(selectedMethod := None)
    else w.(step := w.step - 1)
  }

  /** `Back` undoes `Continue` on the middle steps when no encode ran. */
  lemma BackUndoesContinue(w: Workspace, resp: EncodeResponse)
    requires 0 <= w.step < LAST_STEP - 1
    ensures Back(Continue(w, resp)) == w
  {
  }

  const KEY_ALPHABET: string := "ABCDEFGHIJKLMNOPQRSTUVWXYZabcdefghijklmnopqrstuvwxyz0123456789"
  const KEY_LENGTH: nat := 16

  /** A character of the 62-character alphanumeric alphabet of the generator. */
  predicate IsKeyChar(c: char)
  {
    c in KEY_ALPHABET
  }

  /** `handleAutoGenerateKey`: `picks` are the sixteen values of
      `Math.floor(Math.random() * chars.length)`, each in 0..61. */
  function AutoGenerateKey(w: Workspace, picks: seq<nat>): (r: Workspace)
    requires |picks| == KEY_LENGTH && forall i :: 0 <= i < |picks| ==> picks[i] < 62
    ensures |r.secretKey| == KEY_LENGTH && forall i :: 0 <= i < KEY_LENGTH ==> IsKeyChar(r.secretKey[i])
    ensures r == w.(secretKey := r.secretKey)
    ensures r.step == 2 ==> CanContinue(r)
  {
    assert |KEY_ALPHABET| == 62;
    var key := seq(KEY_LENGTH, i requires 0 <= i < KEY_LENGTH => KEY_ALPHABET[picks[i]]);
    w.(secretKey := key)
  }

  /** The position of a key character in the alphabet. */
  ghost function KeyCharIndex(c: char): (i: nat)
    requires IsKeyChar(c)
    ensures i < 62 && KEY_ALPHABET[i] == c
  {
    assert |KEY_ALPHABET| == 62;
    var i :| 0 <= i < |KEY_ALPHABET| && KEY_ALPHABET[i] == c;
    i
  }

  /** Every sixteen-character alphanumeric key is one the generator can produce. */
  lemma EveryKeyGeneratable(w: Workspace, key: string)
    requires |key| == KEY_LENGTH && forall i :: 0 <= i < |key| ==> IsKeyChar(key[i])
    ensures exists picks: seq<nat> ::
      (|picks| == KEY_LENGTH && (forall i :: 0 <= i < |picks| ==> picks[i] < 62)
       && AutoGenerateKey(w, picks).secretKey == key)
  {
    var picks := seq(KEY_LENGTH, i requires 0 <= i < KEY_LENGTH => KeyCharIndex(key[i]));
    assert AutoGenerateKey(w, picks).secretKey == key;
  }

  /** The cover-text `onChange` of the wizard: typing switches to text input and drops
      any cover file. */
  function SetCoverText(w: Workspace, t: string): (r: Workspace)
    ensures r.coverText == t && r.inputMode == TextInput && r.coverFile == None
  {
    w.(coverText := t, inputMode := TextInput, coverFile := None)
  }

  /** `TEXT_STEGO_ENDPOINTS[textAlgo]`. */
  function Endpoint(a: TextAlgo): string
  {
    match a
    case Character => "/stego/text/character-level/encode"
    case Homoglyph => "/stego/text/homoglyph/encode"
    case Word => "/stego/text/word-level/encode"
  }

  /** Each algorithm has its own endpoint. */
  lemma EndpointInjective(a: TextAlgo, b: TextAlgo)
    requires Endpoint(a) == Endpoint(b)
    ensures a == b
  {
  }

  /** The form posted to the backend: `cover_file`, `secret_text`, `secret_key`. */
  datatype EncodeRequest = EncodeRequest(endpoint: string, coverFile: File, secretText: string, secretKey: string)

  /** The request `handleEncodeTextStego` posts: the chosen cover file only in file mode
      with a file present, and otherwise the cover text as "cover.txt". */
  function RequestOf(w: Workspace): (req: EncodeRequest)
    ensures req.secretText == w.secretText && req.secretKey == w.secretKey
    ensures req.endpoint == Endpoint(w.textAlgo)
    ensures w.inputMode == FileInput && w.coverFile.Some? ==> req.coverFile == w.coverFile.value
    ensures !(w.inputMode == FileInput && w.coverFile.Some?) ==> req.coverFile == File("cover.txt", w.coverText)
  {
    var cover := if w.inputMode == FileInput && w.coverFile.Some? then w.coverFile.value else File("cover.txt", w.coverText);
    EncodeRequest(Endpoint(w.textAlgo), cover, w.secretText, w.secretKey)
  }

  /** After the cover text is edited, the request carries that text as "cover.txt". */
  lemma EditedTextIsSent(w: Workspace, t: string)
    ensures RequestOf(SetCoverText(w, t)).coverFile == File("cover.txt", t)
  {
  }

  /** The user actions the wizard reacts to. While no method is selected only the method
      picker is on screen; the other inputs are rendered at the step they belong to, and
      the cover textarea only under the text cover (the file input of the other covers
      sets nothing). */
  datatype Event =
    | PickMethod(m: StegoMethod)
    | PickCover(c: CoverType)
    | PickAlgo(a: TextAlgo)
    | EditCoverText(t: string)
    | EditSecretText(t: string)
    | EditSecretKey(k: string)
    | GenerateKey(picks: seq<nat>)
    | PressContinue(resp: EncodeResponse)
    | PressBack
    | SentSecurely

  /** The wizard's reaction to one event, with the rendering conditions of the page: the
      footer buttons exist below step 3, Continue only when `canContinue` holds, and the
      header's Back button always. */
  function Handle(w: Workspace, e: Event): Workspace
  {
    if w.selectedMethod.None? then
      (if e.PickMethod? then SelectMethod(w, e.m) else w)
    else
      match e
      case PickMethod(m) => w
      case PickCover(c) => if w.step == 0 then w.(selectedCover := Some(c)) else w
      case PickAlgo(a) =>
        if w.step == 1 && w.selectedCover.Some? && w.selectedMethod == Some(TextStego) then w.(textAlgo := a) else w
      case EditCoverText(t) => if w.step == 1 && w.selectedCover == Some(TextCover) then SetCoverText(w, t) else w
      case EditSecretText(t) => if w.step == 1 && w.selectedCover.Some? then w.(secretText := t) else w
      case EditSecretKey(k) => if w.step == 2 then w.(secretKey := k) else w
      case GenerateKey(picks) =>
        if w.step == 2 && |picks| == KEY_LENGTH && (forall i :: 0 <= i < |picks| ==> picks[i] < 62)
        then AutoGenerateKey(w, picks) else w
      case PressContinue(resp) => if w.step < LAST_STEP && CanContinue(w) then Continue(w, resp) else w
      case PressBack => Back(w)
      case SentSecurely => Initial()
  }

  /** The Continue button is disabled while `canContinue` fails: pressing it then changes
      nothing, and once the gate passes below the last step it runs `handleContinue`. */
  lemma ContinueGated(w: Workspace, resp: EncodeResponse)
    requires w.selectedMethod.Some?
    ensures !CanContinue(w) ==> Handle(w, PressContinue(resp)) == w
    ensures w.step == LAST_STEP ==> Handle(w, PressContinue(resp)) == w
    ensures w.step < LAST_STEP && CanContinue(w) ==> Handle(w, PressContinue(resp)) == Continue(w, resp)
  {
  }

  /** What holds of every workspace the page can reach: the step is one of the four, no
      encode is in flight, a result or an error exists only on the Complete step, no
      cover file is ever chosen (the wizard passes no file setter to its inputs), and
      without a method the workspace is the initial one. */
  predicate Consistent(w: Workspace)
  {
    && 0 <= w.step <= LAST_STEP
    && !w.isProcessing
    && (w.stegoResult.Some? || w.errorMessage.Some? ==> w.step == LAST_STEP)
    && w.coverFile == None && w.inputMode == TextInput
    && (w.selectedMethod.None? ==> w == Initial())
  }

  lemma HandleKeepsConsistent(w: Workspace, e: Event)
    requires Consistent(w)
    ensures Consistent(Handle(w, e))
  {
  }

  function Run(w: Workspace, events: seq<Event>): Workspace
    decreases |events|
  {
    if events == [] then w else Run(Handle(w, events[0]), events[1..])
  }

  /** Every workspace reached from the initial one by any sequence of user actions is
      consistent; in particular the encode request always carries the typed cover text
      as "cover.txt". */
  lemma {:induction false} RunKeepsConsistent(w: Workspace, events: seq<Event>)
    requires Consistent(w)
    ensures Consistent(Run(w, events))
    ensures RequestOf(Run(w, events)).coverFile == File("cover.txt", Run(w, events).coverText)
    decreases |events|
  {
    if events != [] {
      HandleKeepsConsistent(w, events[0]);
      RunKeepsConsistent(Handle(w, events[0]), events[1..]);
    }
  }

  /** The effect of the Send button of the receiver dialog: the writes
      `handleSendSecure` issues, and the workspace afterwards. */
  datatype SendResult = SendResult(writes: seq<StoreWrite>, workspace: Workspace)

  /** `handleSendSecure(receiver)` followed by the dialog's reset. `me` is the signed-in
      user, `convs` the conversations the store holds, and `created` the row the store
      returns for the insert (null when the insert fails). A conversation is reused only
      when exactly one lies between the two users; otherwise one is created with the
      "Encrypted file" summary. The message carries the stego result, never the secret
      text or key, and no summary update is issued. When no conversation is at hand,
      `convo.id` throws, nothing more is written and the dialog does not reset. */
  function SendSecure(w: Workspace, me: Option<UserId>, receiver: UserId,
                      convs: seq<Conversation>, created: Option<Conversation>): SendResult
  {
    match me
    case None => SendResult([], Initial())
    case Some(u) =>
      var found := FindBetween(convs, u, receiver);
      var inserts := if found.Some? then [] else [InsertConversation(u, receiver, Some(ENCRYPTED_FILE), Some(FileKind))];
      var convo := if found.Some? then found else created;
      match convo
      case None => SendResult(inserts, w)
      case Some(c) =>
        var row := NewMessage(c.id, u, FileKind, w.stegoResult, ENCRYPTED_MESSAGE, w.selectedMethod, u);
        SendResult(inserts + [InsertMessage(row)], Initial())
  }

  /** What sending securely writes: never a summary update; a conversation insert exactly
      when no single conversation lay between the two users, as (me, receiver) with the
      "Encrypted file" summary; then a message whose content is the stego result and whose
      method is the selected one, into the found or the created conversation, and no
      message when the insert returned no row. */
  lemma SendSecureWrites(w: Workspace, u: UserId, receiver: UserId,
                         convs: seq<Conversation>, created: Option<Conversation>)
    ensures var out := SendSecure(w, Some(u), receiver, convs, created);
      var found := FindBetween(convs, u, receiver);
      && (forall i :: 0 <= i < |out.writes| ==> !out.writes[i].UpdateConversationSummary?)
      && (found.Some? ==> out.writes == [InsertMessage(NewMessage(found.value.id, u, FileKind, w.stegoResult,
                                                                 ENCRYPTED_MESSAGE, w.selectedMethod, u))])
      && (found.None? && created.Some? ==>
            out.writes == [InsertConversation(u, receiver, Some(ENCRYPTED_FILE), Some(FileKind)),
                           InsertMessage(NewMessage(created.value.id, u, FileKind, w.stegoResult,
                                                    ENCRYPTED_MESSAGE, w.selectedMethod, u))])
      && (found.None? && created.None? ==>
            out.writes == [InsertConversation(u, receiver, Some(ENCRYPTED_FILE), Some(FileKind))])
      && (forall i :: 0 <= i < |out.writes| && out.writes[i].InsertMessage? ==>
            out.writes[i].row.hiddenContent == w.stegoResult
            && out.writes[i].row.stegoMethod == w.selectedMethod
            && out.writes[i].row.senderId == u)
      && (out.workspace == Initial() <==> found.Some? || created.Some? || w == Initial())
  {
  }

  /** Sending from the Complete step after a successful encode stores that encode's body
      as the message content, in either participant order of an existing conversation. */
  lemma SendCarriesEncodedBody(w: Workspace, body: string, u: UserId, receiver: UserId,
                               convs: seq<Conversation>, c: Conversation)
    requires w.step == 2 && w.selectedMethod == Some(TextStego)
    requires FindBetween(convs, receiver, u) == Some(c)
    ensures var done := Continue(w, Answered(true, body));
      SendSecure(done, Some(u), receiver, convs, None).writes
        == [InsertMessage(NewMessage(c.id, u, FileKind, Some(body), ENCRYPTED_MESSAGE, Some(TextStego), u))]
  {
    FindBetweenFound(convs, receiver, u);
  }
}
