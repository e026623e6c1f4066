# Steganographic messenger: a Dafny model of its core

The system hides a secret text inside an innocent cover text and sends the result as
a chat message. This project models, as pure Dafny functions and datatypes, the three
text codecs of the backend (`backend/text_based/text_in_text.py`) and the frontend logic
around them:

- **Character-level codec.** After each cover character it inserts eight zero-width
  characters (U+200B for 0, U+200C for 1). They carry one byte of the secret, which ends
  with U+0003. The bits of each byte are permuted by a key-derived order of 0..7.
- **Homoglyph codec.** It swaps the Latin letters a, e, o, c, p, x, y for their Cyrillic
  look-alikes. Every carrier letter carries one bit of the secret, which is first
  shifted by 3, XOR-ed with `143 + index` and bit-permuted by a fixed order.
- **Word-level codec.** It appends four zero-width characters to each word. Each of
  them carries two bits of a masked byte, using the same shift, XOR and a fixed order.
- **Wizard** (`StegoWorkspace.tsx`). Its four steps, the guard on Continue, and the
  encode call with its error and success paths. It also covers key generation, the
  reset on Back, and sending the result to a receiver through a found-or-created
  conversation.
- **Timeline** (`MessageView.tsx`). Loading, de-duplicated live inserts, text sending,
  the participant check and the decode dialog.
- **Directory** (`WorkspacePage.tsx`). The conversation list with the counterpart names,
  user search, starting a conversation, and the queued send.
- **Sign-up validator** (`SignupPage.tsx`), including the email pattern, characterised
  exactly, and the writes of a submission.
- **Admin panel** (`AdminPanelPage.tsx`). The search and status filter, the counters,
  the offered actions, the confirmation that writes a status, and the "time ago" label.
- **Login decision** (`LoginPage.tsx`). Email confirmation, the request status before
  the role, and the profile-name fallback.

**Modelling choices**

- Python strings are sequences of code points (`Bits.PyString`). Frontend strings are
  Dafny strings. JavaScript `length` is counted in UTF-16 units (`Text.Utf16Length`).
- Bit strings are `seq<bool>`.
- Every exception and error return is a `Result` or an explicit error field.
- Store queries, the auth service and HTTP calls are parameters that carry their
  answers. Every write a handler issues is returned as a value (`Records.StoreWrite`).
- The model follows the code in these points, which a reader might expect otherwise:
  - The timeline appends live messages in arrival order; it does not sort them.
  - A failed encode still advances the wizard to its last step, with the error shown.
  - The queued send of the directory is never triggered. The wizard never calls
    `onSendToChat`, and it is only on screen while no conversation is selected.
  - Opening the decode dialog does not clear a previous decode error.
  - The wizard has no way to set a cover file, so its file branch is dead code.

## Model

The operations themselves (`Encode`, `Decode`, `HandleDecrypt`, `HandleSubmit`, `SendSecure`,
`StartConversation`, `Handle`, …) compute without a contract of their own; each is
cited through the lemmas that state its behaviour, on the same source lines.

| member | source | states |
|---|---|---|
| Bits.IntOfBinDigits | backend/text_based/text_in_text.py:43 | reading back the binary digits of a number gives the number (`int(format(n,'08b'), 2) == n`) |
| Bits.Format08Byte | backend/text_based/text_in_text.py:43 | `format(n, '08b')` of a byte value is exactly eight digits |
| Bits.XorInvolution | backend/text_based/text_in_text.py:118-119 | XOR-ing twice with the same key gives back the value |
| Bits.XorBound | backend/text_based/text_in_text.py:118-119 | XOR of two values below 2^w stays below 2^w |
| Bits.UnshuffleShuffle | backend/text_based/text_in_text.py:29-39 | unshuffling a shuffled byte with the same permutation gives back the byte |
| Bits.ShuffleUnshuffle | backend/text_based/text_in_text.py:29-39 | shuffling an unshuffled byte gives back the byte |
| Bits.UnshufflePlaces | backend/text_based/text_in_text.py:34-39 | `out[order[i]] == byte[i]` for every position |
| Bits.MaskedByte | backend/text_based/text_in_text.py:126-129 | the shift-XOR-shuffle of one character always yields eight bits |
| Bits.UnmaskMasked | backend/text_based/text_in_text.py:164-167 | un-masking a masked character with the same index gives the character back, when shift and key fit a byte |
| CharacterLevel.ToZwc | backend/text_based/text_in_text.py:60-61 | every bit becomes exactly one zero-width character |
| CharacterLevel.ZwcRoundTrip | backend/text_based/text_in_text.py:60-61 | the decoder's bit collection recovers the bits from their zero-width characters, and stripping them leaves nothing |
| CharacterLevel.ZwcBitsAppend | backend/text_based/text_in_text.py:71-75 | the collected bits of a concatenation are the concatenation of the collected bits |
| CharacterLevel.StripZwcAppend | backend/text_based/text_in_text.py:71-75 | removing the zero-width characters distributes over concatenation |
| CharacterLevel.StripZwcNone | backend/text_based/text_in_text.py:71-75 | a text without zero-width characters is unchanged by removing them |
| CharacterLevel.CharTextToBinaryBytes | backend/text_based/text_in_text.py:42-43 | for characters below 256 the binary is 8 bits per character, first byte first |
| CharacterLevel.CharTextToBinaryLength | backend/text_based/text_in_text.py:42-43 | the binary of a byte-range text has 8 bits per character |
| CharacterLevel.ShuffledGroups | backend/text_based/text_in_text.py:56-63 | `k` shuffled groups hold exactly `8k` bits |
| CharacterLevel.EmbedBitsShape | backend/text_based/text_in_text.py:53-63 | the encoder keeps the visible text and adds 8 bits for each cover character while whole bytes remain; slot k of nine characters is cover character k directly followed by byte k, shuffled, and the rest of the cover follows unchanged |
| CharacterLevel.EncodeLength | backend/text_based/text_in_text.py:53-65 | the stego text has 8 × min(cover length, carried bytes) more characters than the cover |
| CharacterLevel.EncodeInsertsOnlyZwc | backend/text_based/text_in_text.py:46-65 | encoding only inserts zero-width characters (a cover without them is recovered exactly by stripping), 8 per carried byte, each group directly after its cover character |
| CharacterLevel.EncodeLayout | backend/text_based/text_in_text.py:46-65 | the stego text is, for each cover character up to the secret's length plus one, that character followed by the shuffled 8 bits of the matching secret character (or U+0003) as zero-width characters, then the rest of the cover |
| CharacterLevel.DecodeShuffledGroups | backend/text_based/text_in_text.py:77-91 | decoding the shuffled groups of a text gives that text up to its first U+0003 |
| CharacterLevel.DecodeShuffledIsPlain | backend/text_based/text_in_text.py:77-91 | unshuffling each of `k` shuffled groups and reading it gives the groups read in order, up to the first U+0003 |
| CharacterLevel.PlainCharsOfText | backend/text_based/text_in_text.py:42-43 | the 8-digit groups of a byte-range text read back as that text, up to its first U+0003 |
| CharacterLevel.TakeUntilEomClean | backend/text_based/text_in_text.py:86-87 | a secret without U+0003 is returned whole, also when U+0003 is appended |
| CharacterLevel.RoundTrip | backend/text_based/text_in_text.py:46-91 | decode(encode(cover, secret)) is the secret cut to the cover's length, and the whole secret when the cover is at least as long, for every key permutation |
| CharacterLevel.EncodeCharacterLevel | backend/text_based/text_in_text.py:46-65 | the loop with `bit_index` computes the recursive encoder |
| CharacterLevel.DecodeCharacterLevel | backend/text_based/text_in_text.py:68-91 | the two loops of the decoder compute the recursive decoder |
| Homoglyph.OrderIsPermutation | backend/text_based/text_in_text.py:104 | the fixed order is a permutation of 0..7 |
| Homoglyph.EmbedBits | backend/text_based/text_in_text.py:138-147 | the homoglyph encoder keeps the length of the cover |
| Homoglyph.EncodeFailsIff | backend/text_based/text_in_text.py:131-133 | encoding fails exactly when there are fewer carrier letters than secret bits |
| Homoglyph.EmbedBitsAt | backend/text_based/text_in_text.py:138-147 | the character at each position is the look-alike exactly when it is a carrier whose bit is 1, and unchanged otherwise |
| Homoglyph.EncodeShape | backend/text_based/text_in_text.py:122-149 | a successful encode changes only carrier letters, each to its look-alike or itself |
| Homoglyph.SecretBitsLength | backend/text_based/text_in_text.py:126-129 | each secret character contributes 8 bits |
| Homoglyph.UnmaskMask | backend/text_based/text_in_text.py:163-167 | un-masking the eight bits written for a character at index `idx` gives the character back, when shift and key fit a byte |
| Homoglyph.EmbedBitsCarries | backend/text_based/text_in_text.py:138-161 | the bits read from an encoded text start with the embedded bits |
| Homoglyph.DecodeLoopIsChunked | backend/text_based/text_in_text.py:152-176 | the streaming decoder equals "collect all bits, then decode 8 at a time" |
| Homoglyph.DecodeSecretBits | backend/text_based/text_in_text.py:163-174 | the masked bits of a secret followed by U+0003 decode to the secret, whatever follows |
| Homoglyph.RoundTrip | backend/text_based/text_in_text.py:122-176 | with enough carriers and no look-alikes in the cover, encoding succeeds and decoding gives the secret back |
| WordLevel.OrderIsPermutation | backend/text_based/text_in_text.py:191 | the fixed order is a permutation of 0..7 |
| WordLevel.Split | backend/text_based/text_in_text.py:210 | `str.split()` yields non-empty words without white space |
| WordLevel.SplitJoin | backend/text_based/text_in_text.py:232 | splitting words joined by single spaces gives the words back |
| WordLevel.Marks | backend/text_based/text_in_text.py:224-226 | a masked byte becomes exactly four of the zero-width marks |
| WordLevel.UnmaskMask | backend/text_based/text_in_text.py:246-249 | un-masking the eight bits written for the character of word `idx` gives the character back, when shift and key fit a byte |
| WordLevel.WordBitsMarks | backend/text_based/text_in_text.py:241-243 | reading the marks of a word back gives the 8 bits written |
| WordLevel.WordBitsAppend | backend/text_based/text_in_text.py:241-243 | bits read from a concatenation are the concatenation of the bits |
| WordLevel.StegoWordsAreWords | backend/text_based/text_in_text.py:218-230 | marked words are still words, so the output splits back into the same number of words |
| WordLevel.EncodeFailsIff | backend/text_based/text_in_text.py:213-214 | encoding fails exactly when the cover has fewer words than secret characters plus one |
| WordLevel.EncodeShape | backend/text_based/text_in_text.py:209-232 | the output keeps the word count; the first `|secret|+1` words gain four marks and the rest are unchanged |
| WordLevel.DecodeStegoWords | backend/text_based/text_in_text.py:235-256 | decoding the marked words from index `i` gives the secret characters back |
| WordLevel.SplitNoMarks | backend/text_based/text_in_text.py:210 | a cover without marks splits into words without marks |
| WordLevel.RoundTrip | backend/text_based/text_in_text.py:209-256 | with enough words and no marks in the cover, encoding succeeds and decoding gives the secret back |
| Records.Matching | frontend/src/components/demo_trails/StegoWorkspace.tsx:107-113 | the rows kept are rows of the store that lie between the two users |
| Records.MatchingComplete | frontend/src/components/demo_trails/StegoWorkspace.tsx:110-112 | every row between the two users is kept |
| Records.MatchingSymmetric | frontend/src/components/demo_trails/StegoWorkspace.tsx:110-112 | the filter is symmetric in the two users |
| Records.FindBetweenFound | frontend/src/components/demo_trails/StegoWorkspace.tsx:107-113 | `.single()` finds a row exactly when one row matches; that row is in the store, is the only match, and is found in either order |
| Records.MatchingSingle | frontend/src/pages/WorkspacePage.tsx:166-172 | with distinct rows, a unique matching row is the single match |
| Records.ResolveAfterCreate | frontend/src/components/demo_trails/StegoWorkspace.tsx:115-128 | after creating the missing conversation, looking it up again finds the created row in either order |
| Wizard.Reset | frontend/src/components/demo_trails/StegoWorkspace.tsx:86-98 | resetting keeps the selected method |
| Wizard.ResetForgets | frontend/src/components/demo_trails/StegoWorkspace.tsx:86-98 | a reset forgets everything but the method, and is idempotent |
| Wizard.SelectMethod | frontend/src/components/demo_trails/StegoWorkspace.tsx:190-193 | picking a method gives the initial workspace with that method |
| Wizard.CanContinueIff | frontend/src/components/demo_trails/StegoWorkspace.tsx:229-243 | step 0 needs a cover type; step 1 a secret and a cover; step 2 a key of at least 4 UTF-16 units |
| Wizard.ContinueGated | frontend/src/components/demo_trails/StegoWorkspace.tsx:377-392 | Continue is refused (the workspace is unchanged) while `canContinue` fails or on the last step, and otherwise runs `handleContinue` |
| Wizard.HandleEncode | frontend/src/components/demo_trails/StegoWorkspace.tsx:151-186 | the encode ends processing; a failure keeps the old result and sets an error; a success stores the body and clears the error |
| Wizard.Continue | frontend/src/components/demo_trails/StegoWorkspace.tsx:195-202 | Continue advances below the last step, and changes only the step outside the text encode at step 2 |
| Wizard.EncodeFailureStillAdvances | frontend/src/components/demo_trails/StegoWorkspace.tsx:173-201 | a failed encode still moves to step 3, with "Encoding failed" or the thrown message and the result unchanged |
| Wizard.EncodeSuccessStoresBody | frontend/src/components/demo_trails/StegoWorkspace.tsx:178-201 | a successful encode stores exactly the response body and moves to step 3 |
| Wizard.Back | frontend/src/components/demo_trails/StegoWorkspace.tsx:204-217 | Back from the first or last step resets and deselects the method, and otherwise steps back one |
| Wizard.BackUndoesContinue | frontend/src/components/demo_trails/StegoWorkspace.tsx:195-217 | on steps 0 and 1, Back undoes Continue |
| Wizard.AutoGenerateKey | frontend/src/components/demo_trails/StegoWorkspace.tsx:219-227 | the generated key has 16 alphanumeric characters, nothing else changes, and it passes the step-2 guard |
| Wizard.EveryKeyGeneratable | frontend/src/components/demo_trails/StegoWorkspace.tsx:219-227 | every 16-character alphanumeric key is produced by some random draws |
| Wizard.SetCoverText | frontend/src/components/demo_trails/StegoWorkspace.tsx:294-298 | typing a cover text selects text mode and drops any file |
| Wizard.EndpointInjective | frontend/src/components/demo_trails/StegoWorkspace.tsx:30-34 | the three algorithms post to three different endpoints |
| Wizard.RequestOf | frontend/src/components/demo_trails/StegoWorkspace.tsx:156-166 | the request carries the secret text and key unchanged and the endpoint of the chosen algorithm; the cover is the uploaded file in file mode with a file present, and otherwise the cover text as "cover.txt" |
| Wizard.EditedTextIsSent | frontend/src/components/demo_trails/StegoWorkspace.tsx:145-162 | after typing a cover text, the request sends it as "cover.txt" |
| Wizard.HandleKeepsConsistent | frontend/src/components/demo_trails/StegoWorkspace.tsx:247-392 | every UI action keeps the wizard consistent: step in 0..3, no encode in flight, a result or error only at step 3, no file cover |
| Wizard.RunKeepsConsistent | frontend/src/components/demo_trails/StegoWorkspace.tsx:247-392 | any sequence of actions keeps the wizard consistent, and the encode request always carries the typed cover text |
| Wizard.SendSecureWrites | frontend/src/components/demo_trails/StegoWorkspace.tsx:102-141 | sending writes no summary; into a found conversation it writes only the message; otherwise it inserts the conversation and then the message into the created row, or nothing more when no row comes back; the message carries the stego result and the selected method |
| Wizard.SendCarriesEncodedBody | frontend/src/components/demo_trails/StegoWorkspace.tsx:131-139 | after a successful encode, the message sent into an existing conversation carries exactly the encoded body |
| Timeline.LoadMessages | frontend/src/components/MessageView.tsx:57-68 | loading replaces the list with the fetched rows (none when null) and ends loading |
| Timeline.LoadThenLive | frontend/src/components/MessageView.tsx:57-89 | after a load, whatever was listed before, any stream of live inserts keeps the fetched rows first and in order, keeps ids unique, and lists every delivered id |
| Timeline.HasIdIff | frontend/src/components/MessageView.tsx:85 | `prev.some(m => m.id === id)` holds exactly when a listed message has that id |
| Timeline.LiveInsertProperties | frontend/src/components/MessageView.tsx:84-88 | live inserts keep ids unique, always list the new id, and keep the earlier messages as a prefix |
| Timeline.LiveInsertIdempotent | frontend/src/components/MessageView.tsx:84-88 | delivering the same row twice is delivering it once |
| Timeline.MergeProperties | frontend/src/components/MessageView.tsx:83-89 | after any stream of inserts the ids stay unique, the loaded messages stay a prefix, and every delivered id is listed |
| Timeline.SendTextMessageEffect | frontend/src/components/MessageView.tsx:100-133 | blank input sends nothing; otherwise the text is stored verbatim, the summary becomes "Encrypted message", and the input clears; without a user, sending stays on |
| Timeline.CheckAuthorization | frontend/src/components/MessageView.tsx:183-197 | the check throws exactly for a signed-in non-participant |
| Timeline.AuthorizedIffParticipant | frontend/src/components/MessageView.tsx:188-193 | a signed-in user passes exactly for the conversations they are part of |
| Timeline.OpenDecrypt | frontend/src/components/MessageView.tsx:294-312 | the button exists only on a listed, hovered file or hidden-content message with a method; its click selects the message, empties the key and the plaintext, and keeps the previous error |
| Timeline.HandleDecryptOutcomes | frontend/src/components/MessageView.tsx:199-248 | without a message nothing happens; a message with no payload or a failed download fails with its error and no request; otherwise the request carries the hidden content or the downloaded text; an ok reply sets its `secret_text` and clears the error, a non-ok reply shows its detail or "Decryption failed", a thrown request its message; a plaintext and an error are never shown together |
| Timeline.HiddenContentFirst | frontend/src/components/MessageView.tsx:209-213 | a message with hidden content is decoded from it, whatever the download returns |
| Timeline.StepKeepsDialogSound | frontend/src/components/MessageView.tsx:294-395 | every event of the page keeps the dialog on a file or hidden-content message that names a method, and never shows a plaintext and an error together |
| Timeline.RunKeepsDialogSound | frontend/src/components/MessageView.tsx:294-395 | so does any sequence of events |
| Timeline.InitialDialogSound | frontend/src/components/MessageView.tsx:44-52 | the initial state is sound, hence every state the page reaches from it |
| Directory.CounterpartIsOther | frontend/src/pages/WorkspacePage.tsx:109-111 | for a conversation of the user, the counterpart is the other participant |
| Directory.DisplayNameIff | frontend/src/pages/WorkspacePage.tsx:118-129 | the shown name is the non-empty name of the last profile with that id, else "Unknown User" |
| Directory.LastWith | frontend/src/pages/WorkspacePage.tsx:118-121 | `new Map` keeps the last profile for an id |
| Directory.LoadConversationsEffect | frontend/src/pages/WorkspacePage.tsx:92-134 | loading keeps the rows' count, order and fields, adds the counterpart and its name, and empties the list on no rows |
| Directory.LoadWithoutUser | frontend/src/pages/WorkspacePage.tsx:96 | without a user the list is left alone |
| Directory.SearchUsersEffect | frontend/src/pages/WorkspacePage.tsx:138-156 | a blank query clears the results without a query; any other query shows the store's answer |
| Directory.StartExisting | frontend/src/pages/WorkspacePage.tsx:166-182 | an existing conversation is selected in either participant order, without a write, and the search clears |
| Directory.StartCreates | frontend/src/pages/WorkspacePage.tsx:184-211 | otherwise a conversation is inserted, put at the head of the list and selected |
| Directory.StartSelectsAuthorized | frontend/src/pages/WorkspacePage.tsx:160-212 | the selected conversation passes the timeline's participant check for the user |
| Directory.SendToChat | frontend/src/pages/WorkspacePage.tsx:250-257 | content is queued only for an open conversation |
| Directory.PendingSendOnce | frontend/src/pages/WorkspacePage.tsx:52-84 | a queued send writes its message and summary once, then the queue is empty |
| Directory.SendToChatLands | frontend/src/pages/WorkspacePage.tsx:52-84 | queued content lands in the conversation open when it was queued |
| Signup.EmailPatternIff | frontend/src/pages/SignupPage.tsx:26 | the email regular expression accepts exactly: a plain local part, the first '@', and a plain domain with an inner '.' |
| Signup.Put | frontend/src/pages/SignupPage.tsx:24-30 | recording an error sets only that field's key |
| Signup.CollectKeys | frontend/src/pages/SignupPage.tsx:22-30 | each check's error lands under its own field and nowhere else |
| Signup.ValidateKeys | frontend/src/pages/SignupPage.tsx:21-34 | a field has an error exactly when its own check fails, with that check's message |
| Signup.NoErrorsIff | frontend/src/pages/SignupPage.tsx:21-34 | the form validates exactly when none of the five fields has an error |
| Signup.KeysDistinct | frontend/src/pages/SignupPage.tsx:24-30 | the five error keys are distinct |
| Signup.FieldErrors | frontend/src/pages/SignupPage.tsx:24-30 | a blank name or reason fails; the email is "required" when blank, else "invalid" exactly when badly shaped; the password is "required" when empty, else too short below 8 units; the confirmation fails exactly on mismatch |
| Signup.ValidIff | frontend/src/pages/SignupPage.tsx:21-34 | the form validates exactly when every field is acceptable |
| Signup.SubmitValidatedWrites | frontend/src/pages/SignupPage.tsx:43-91 | a created user gets the pending request with role "user" and the form's fields, then the profile unless the request insert failed; without a created user nothing is written; the page redirects exactly when all calls succeed; errors are never empty |
| Signup.SubmitWrites | frontend/src/pages/SignupPage.tsx:36-38 | a form that fails validation writes nothing and shows no submit error |
| Signup.SubmitWritesOnlyAcceptable | frontend/src/pages/SignupPage.tsx:21-64 | nothing is written unless every field is acceptable |
| Admin.FilteredMembership | frontend/src/pages/AdminPanelPage.tsx:113-119 | a request is listed exactly when its lower-cased name or email contains the lower-cased query and the filter is "all" or its status |
| Admin.FilteredIsSubsequence | frontend/src/pages/AdminPanelPage.tsx:113-119 | the list shown is an order-preserving subsequence of the fetched list |
| Admin.FilteredEverything | frontend/src/pages/AdminPanelPage.tsx:113-119 | an empty query with "All Status" lists every request |
| Admin.CountsSum | frontend/src/pages/AdminPanelPage.tsx:216-246 | the pending, approved and rejected counters sum to the number of requests |
| Admin.CountIsFilterLength | frontend/src/pages/AdminPanelPage.tsx:121 | each counter equals the length of the list its filter shows for an empty query |
| Admin.PendingBanner | frontend/src/pages/AdminPanelPage.tsx:196-200 | the banner is shown exactly when a request is pending |
| Admin.PendingBannerText | frontend/src/pages/AdminPanelPage.tsx:200 | the banner starts with the count, and uses the singular "request" exactly for one |
| Admin.FetchUsers | frontend/src/pages/AdminPanelPage.tsx:102-111 | the list is replaced only by an error-free reply with data, and nothing else changes |
| Admin.HandleAction | frontend/src/pages/AdminPanelPage.tsx:123-126 | choosing an action opens the dialog on that request and action |
| Admin.DismissDialog | frontend/src/pages/AdminPanelPage.tsx:395 | closing the dialog forgets the request |
| Admin.NewStatus | frontend/src/pages/AdminPanelPage.tsx:131 | an action never sets a request back to pending |
| Admin.ConfirmAction | frontend/src/pages/AdminPanelPage.tsx:128-144 | without both a request and an action nothing happens; otherwise the status update is sent (approve to "approved", reject to "rejected"), a refetch runs exactly on success, and the selection clears |
| Admin.ApplyUpdate | frontend/src/pages/AdminPanelPage.tsx:133-136 | the update changes the status of the rows with that id only |
| Admin.ApproveOrRejectLands | frontend/src/pages/AdminPanelPage.tsx:123-144 | choosing and confirming an action leaves that request "approved" or "rejected" after the refetch, and the other requests as they were |
| Admin.DismissedConfirmsNothing | frontend/src/pages/AdminPanelPage.tsx:129 | a dismissed dialog cannot be confirmed |
| Admin.OfferedActionsShape | frontend/src/pages/AdminPanelPage.tsx:326-365 | Approve/Reject appear exactly on pending rows and Re-approve/Revoke Access exactly on the others; each row offers one action of each kind |
| Admin.BucketRanges | frontend/src/pages/AdminPanelPage.tsx:165-174 | below 60 s (negative included) is "just now"; then whole minutes below an hour, whole hours below a day, then whole days, each rounded down |
| Admin.RenderInjective | frontend/src/pages/AdminPanelPage.tsx:167-173 | different buckets never render the same label |
| Admin.CountNotJustNow | frontend/src/pages/AdminPanelPage.tsx:167-173 | a count label is never "Just now" |
| Admin.FormatTimeAgoSameIff | frontend/src/pages/AdminPanelPage.tsx:165-174 | two elapsed times get the same label exactly when they fall in the same bucket |
| Login.LocalPart | frontend/src/pages/LoginPage.tsx:90 | `split("@")[0]` is a prefix of the email without '@', followed by '@' when shorter |
| Login.ProfileNameFallback | frontend/src/pages/LoginPage.tsx:88-91 | the profile name is never empty: the metadata name when non-empty, else the non-empty local part of the email, else "User" |
| Login.RoutesIffAdmitted | frontend/src/pages/LoginPage.tsx:38-99 | the page routes exactly for a confirmed user with a request that is neither pending nor rejected, to "/admin" exactly for role admin; otherwise a non-empty error shows; loading always ends |
| Login.PendingAdminBlocked | frontend/src/pages/LoginPage.tsx:61-76 | a pending or rejected admin is signed out with the status message and not routed |
| Login.SignOutIff | frontend/src/pages/LoginPage.tsx:42-69 | the session is signed out exactly for an unconfirmed email, a missing request, or a pending or rejected one, each with its message |
| Login.ProfileInsertedIff | frontend/src/pages/LoginPage.tsx:79-93 | a profile row is inserted exactly for a routed user without one, under their id and with the non-empty fallback name |
| Login.AuthErrorShown | frontend/src/pages/LoginPage.tsx:38-96 | an auth error shows its own message, or "Something went wrong" when empty, without signing out |
| Text.BlankIff | frontend/src/pages/SignupPage.tsx:24 | `!s.trim()` holds exactly when every character is JavaScript white space |
| Text.ContainsIff | frontend/src/pages/AdminPanelPage.tsx:115 | `includes` holds exactly when the needle occurs at some position |
| Text.NatToStringInjective | frontend/src/pages/AdminPanelPage.tsx:169-173 | different counts render as different digit strings |

## Left out

- The keyed permutation of the character-level codec is a parameter. The source seeds
  Mersenne Twister with a SHA-256 hash of the key (`backend/text_based/text_in_text.py:21-26`),
  and neither is modelled. Every property is proved for every permutation of 0..7.
- `backend/main.py`, the HTTP layer, is not part of this model. Its homoglyph and
  word-level routes answer with JSON, while the wizard stores the raw response body
  (`StegoWorkspace.tsx:178`). The model stores the body as it arrives.
- The timeline always posts to the character-level decode endpoint. It is modelled as
  a reply parameter, and the server-side decode is the `CharacterLevel` model.
- The store, the auth service, realtime channels and storage downloads are left out.
  Their answers are parameters, and their failures are the error values the handlers
  see.
- The clock (`updated_at`, `Date.now()`) is left out. The elapsed time of
  `formatTimeAgo` is a parameter in milliseconds, and an invalid date (NaN) is not
  modelled.
- `Math.random` in key generation becomes a sequence of 16 draws, each below 62.
- Lower-casing is ASCII only: JavaScript `toLowerCase` and Python `str.lower` also
  fold non-ASCII letters. Lone surrogates in JavaScript strings are not modelled.
- Dafny strings here are Unicode scalar values, so the number of UTF-16 units is
  computed from them.
- `handleFileUpload` of the timeline (`MessageView.tsx:137-181`) is left out. It
  covers a storage upload with a time-stamped path.
- `loadUsers` and the receiver popup of the wizard are left out. The chosen receiver
  is a parameter of the send.
- The server-side `ilike` name search of the directory is left out. Its answer is a
  parameter.
- The admin check on entering the panel, logout, and the session sign-out after
  sign-up are left out. They are navigation and session effects with no data of
  their own.
- The errors of inserts and updates that the handlers ignore are left out. Such a
  write is still listed, as the handler issues it.
- Asynchronous interleaving is not modelled: each handler runs to completion before the
  next event. In the page, Continue stays enabled while an encode is awaited
  (`StegoWorkspace.tsx:195-201`), so two presses could advance twice, and a realtime
  insert could land between a handler's awaits. Wizard.Consistent and
  Timeline.DialogSound hold for sequential handling only.
- Presentation components (the method, cover and key inputs, progress steps, badges)
  are left out.
- Homoglyph.RoundTrip and WordLevel.RoundTrip: proved for secrets of at most 112
  characters, each with a code point of at most 252. Beyond that, `143 + index` or
  the shifted code no longer fits a byte, so the 8-bit framing of the source loses
  bits.
- CharacterLevel.RoundTrip: proved for secrets whose characters are below 256 and
  without U+0003. Wider characters make `format(…, '08b')` longer than 8 digits, so
  the byte framing of the source breaks.
