/** The conversation directory of frontend/src/pages/WorkspacePage.tsx: the list of the
    user's conversations with the other participant's name, the user search, starting a
    conversation, and the hand-off of a stego result to the open conversation. */
module Directory {
  import opened Wrappers
  import opened Records
  import opened Text
  import Timeline

  datatype Profile = Profile(id: UserId, fullName: Option<string>)

  /** A conversation as the list shows it, with `otherUserId` and `otherUserName`. */
  datatype Listed = Listed(conv: Conversation, otherUserId: UserId, otherUserName: Option<string>)

  /** `{ conversationId, content, method }` waiting to be written. */
  datatype PendingSend = PendingSend(conversationId: string, content: string, stegoMethod: StegoMethod)

  datatype Directory = Directory(
    conversations: seq<Listed>,
    searchResults: seq<Profile>,
    selected: Option<Listed>,
    pendingSend: Option<PendingSend>)

  function Initial(): Directory
  {
    Directory([], [], None, None)
  }

  /** `c.user1 === me ? c.user2 : c.user1`. */
  function Counterpart(c: Conversation, me: UserId): UserId
  {
    if c.user1 == me then c.user2 else c.user1
  }

  /** For a conversation of `me`, the counterpart is the other participant. */
  lemma CounterpartIsOther(c: Conversation, me: UserId)
    requires c.user1 == me || c.user2 == me
    ensures Between(c, me, Counterpart(c, me))
    ensures c.user1 != c.user2 ==> Counterpart(c, me) != me
  {
  }

  /** `new Map(profiles.map(p => [p.id, p.full_name])).get(id)`: the name of the last
      profile with that id, when there is one. */
  function MapGet(profiles: seq<Profile>, id: UserId): Option<Option<string>>
  {
    if profiles == [] then None
    else if profiles[|profiles| - 1].id == id then Some(profiles[|profiles| - 1].fullName)
    else MapGet(profiles[..|profiles| - 1], id)
  }

  /** `profileMap.get(id) || "Unknown User"`. */
  function DisplayName(profiles: seq<Profile>, id: UserId): string
  {
    match MapGet(profiles, id)
    case Some(Some(n)) => if n != "" then n else "Unknown User"
    case _ => "Unknown User"
  }

  /** The shown name is the non-empty name of the last profile with that id, and
      "Unknown User" when there is none, the name is null, or it is empty. */
  lemma {:induction false} DisplayNameIff(profiles: seq<Profile>, id: UserId)
    ensures (exists k :: 0 <= k < |profiles| && profiles[k].id == id) ==>
      var k := LastWith(profiles, id);
      DisplayName(profiles, id) ==
        (if profiles[k].fullName.Some? && profiles[k].fullName.value != "" then profiles[k].fullName.value else "Unknown User")
    ensures (forall k :: 0 <= k < |profiles| ==> profiles[k].id != id) ==> DisplayName(profiles, id) == "Unknown User"
    decreases |profiles|
  {
    if profiles != [] {
      var init := profiles[..|profiles| - 1];
      if profiles[|profiles| - 1].id != id {
        DisplayNameIff(init, id);
        if exists k :: 0 <= k < |profiles| && profiles[k].id == id {
          var k :| 0 <= k < |profiles| && profiles[k].id == id;
          assert init[k].id == id;
        }
        if forall k :: 0 <= k < |profiles| ==> profiles[k].id != id {
          assert forall k :: 0 <= k < |init| ==> init[k].id != id by {
            forall k | 0 <= k < |init| ensures init[k].id != id {
              assert init[k] == profiles[k];
            }
          }
        }
      }
    }
  }

  /** The index of the last profile with that id. */
  function LastWith(profiles: seq<Profile>, id: UserId): (k: nat)
    requires exists k :: 0 <= k < |profiles| && profiles[k].id == id
    ensures k < |profiles| && profiles[k].id == id
    ensures forall j :: k < j < |profiles| ==> profiles[j].id != id
  {
    if profiles[|profiles| - 1].id == id then |profiles| - 1
    else
      var init := profiles[..|profiles| - 1];
      var k :| 0 <= k < |profiles| && profiles[k].id == id;
      assert init[k].id == id;
      LastWith(init, id)
  }

  /** The list entry built for one conversation of `me`. */
  function Enrich(c: Conversation, me: UserId, profiles: seq<Profile>): Listed
  {
    var other := Counterpart(c, me);
    Listed(c, other, Some(DisplayName(profiles, other)))
  }

  /** The outcome of `loadConversations`: the directory afterwards, and the ids of the
      profile lookup when one is issued. */
  datatype LoadResult = LoadResult(directory: Directory, profileLookup: Option<seq<UserId>>)

  /** `loadConversations`: `me` is the signed-in user, `convs` the rows of the store
      query (null on error) and `profiles` the rows of the profile lookup (null on
      error). */
  function LoadConversations(d: Directory, me: Option<UserId>, convs: Option<seq<Conversation>>,
                             profiles: Option<seq<Profile>>): LoadResult
  {
    match me
    case None => LoadResult(d, None)
    case Some(u) =>
      if convs.None? || convs.value == [] then LoadResult(d.(conversations := []), None)
      else
        var cs := convs.value;
        var ps := profiles.GetOr([]);
        var ids := seq(|cs|, i requires 0 <= i < |cs| => Counterpart(cs[i], u));
        var listed := seq(|cs|, i requires 0 <= i < |cs| => Enrich(cs[i], u, ps));
        LoadResult(d.(conversations := listed), Some(ids))
  }

  /** Loading keeps the rows' count, order and fields, and adds the counterpart and its
      name; an empty or failed result empties the list without a profile lookup; and
      nothing but the list changes. */
  lemma LoadConversationsEffect(d: Directory, u: UserId, convs: Option<seq<Conversation>>,
                                profiles: Option<seq<Profile>>)
    ensures var out := LoadConversations(d, Some(u), convs, profiles);
      && out.directory == d.(conversations := out.directory.conversations)
      && (convs.None? || convs.value == [] ==> out.directory.conversations == [] && out.profileLookup == None)
      && (convs.Some? && convs.value != [] ==>
            var cs := convs.value;
            && |out.directory.conversations| == |cs|
            && out.profileLookup.Some? && |out.profileLookup.value| == |cs|
            && forall i :: 0 <= i < |cs| ==>
                 && out.directory.conversations[i].conv == cs[i]
                 && out.directory.conversations[i].otherUserId == Counterpart(cs[i], u)
                 && out.profileLookup.value[i] == Counterpart(cs[i], u)
                 && out.directory.conversations[i].otherUserName == Some(DisplayName(profiles.GetOr([]), Counterpart(cs[i], u))))
  {
  }

  /** Without a signed-in user the list is left alone. */
  lemma LoadWithoutUser(d: Directory, convs: Option<seq<Conversation>>, profiles: Option<seq<Profile>>)
    ensures LoadConversations(d, None, convs, profiles) == LoadResult(d, None)
  {
  }

  /** The outcome of `searchUsers`: the directory afterwards and whether the profile
      query was issued. */
  datatype SearchResult = SearchResult(directory: Directory, queried: bool)

  /** `searchUsers(query)`: `data` is the store's answer to the name query (null on
      error). */
  function SearchUsers(d: Directory, query: string, me: Option<UserId>, data: Option<seq<Profile>>): SearchResult
  {
    if IsBlank(query) then SearchResult(d.(searchResults := []), false)
    else if me.None? then SearchResult(d, false)
    else SearchResult(d.(searchResults := data.GetOr([])), true)
  }

  /** A query made only of white space clears the results and queries nothing; any
      other query from a signed-in user shows exactly the store's answer. */
  lemma SearchUsersEffect(d: Directory, query: string, me: Option<UserId>, data: Option<seq<Profile>>)
    ensures var out := SearchUsers(d, query, me, data);
      && (AllSpace(query) ==> out == SearchResult(d.(searchResults := []), false))
      && (!AllSpace(query) && me.Some? ==> out.queried && out.directory.searchResults == data.GetOr([]))
      && (out.queried <==> !AllSpace(query) && me.Some?)
      && out.directory.conversations == d.conversations
  {
    BlankIff(query);
  }

  datatype StartResult = StartResult(writes: seq<StoreWrite>, directory: Directory)

  /** `startConversation(profile)`: `convs` are the conversations the store holds and
      `created` the row it returns for the insert (null on failure). */
  function StartConversation(d: Directory, me: Option<UserId>, profile: Profile,
                             convs: seq<Conversation>, created: Option<Conversation>): StartResult
  {
    match me
    case None => StartResult([], d)
    case Some(u) =>
      match FindBetween(convs, u, profile.id)
      case Some(existing) =>
        StartResult([], d.(selected := Some(Listed(existing, profile.id, profile.fullName)), searchResults := []))
      case None =>
        var insert := InsertConversation(u, profile.id, None, None);
        match created
        case None => StartResult([insert], d)
        case Some(c) =>
          var entry := Listed(c, profile.id, profile.fullName);
          StartResult([insert], d.(conversations := [entry] + d.conversations, selected := Some(entry), searchResults := []))
  }

  /** An existing conversation between the two users, in either order, is selected
      without a write; the list stays as it is and the search is cleared. */
  lemma StartExisting(d: Directory, u: UserId, profile: Profile, convs: seq<Conversation>,
                      created: Option<Conversation>, c: Conversation)
    requires RowsDistinct(convs)
    requires c in convs && Between(c, profile.id, u)
    requires forall e :: e in convs && Between(e, u, profile.id) ==> e == c
    ensures var out := StartConversation(d, Some(u), profile, convs, created);
      && out.writes == []
      && out.directory.conversations == d.conversations
      && out.directory.selected == Some(Listed(c, profile.id, profile.fullName))
      && out.directory.searchResults == []
  {
    MatchingSymmetric(convs, profile.id, u);
    MatchingSingle(convs, u, profile.id, c);
  }

  /** Without an existing conversation one is inserted as (me, profile) with no summary;
      the created row is put at the head of the list, selected, and the search cleared. */
  lemma StartCreates(d: Directory, u: UserId, profile: Profile, convs: seq<Conversation>, c: Conversation)
    requires forall e :: e in convs ==> !Between(e, u, profile.id)
    ensures var out := StartConversation(d, Some(u), profile, convs, Some(c));
      && out.writes == [InsertConversation(u, profile.id, None, None)]
      && out.directory.conversations == [Listed(c, profile.id, profile.fullName)] + d.conversations
      && out.directory.conversations[1..] == d.conversations
      && out.directory.selected == Some(out.directory.conversations[0])
      && out.directory.searchResults == []
  {
  }

  /** Whatever conversation starting selects, the signed-in user passes the timeline's
      participant check on it, provided the store returns the row it was asked to
      insert. */
  lemma StartSelectsAuthorized(d: Directory, u: UserId, profile: Profile, convs: seq<Conversation>,
                               created: Option<Conversation>)
    requires created.Some? ==> created.value.user1 == u && created.value.user2 == profile.id
    ensures var out := StartConversation(d, Some(u), profile, convs, created);
      out.directory.selected != d.selected ==>
        out.directory.selected.Some? && Timeline.CheckAuthorization(out.directory.selected.value.conv, Some(u)).None?
  {
    FindBetweenFound(convs, u, profile.id);
  }

  /** `onSendToChat` of the wizard: the content is queued for the open conversation, and
      nothing happens when none is open. */
  function SendToChat(d: Directory, content: string, kind: StegoMethod): (r: Directory)
    ensures d.selected.None? ==> r == d
    ensures d.selected.Some? ==> r.pendingSend == Some(PendingSend(d.selected.value.conv.id, content, kind))
  {
    match d.selected
    case None => d
    case Some(s) => d.(pendingSend := Some(PendingSend(s.conv.id, content, kind)))
  }

  datatype PendingResult = PendingResult(writes: seq<StoreWrite>, directory: Directory)

  /** The effect on `pendingSend`: the message insert (a file with the "Stego message"
      preview) and the summary update, after which the queue is emptied. */
  function PendingSendEffect(d: Directory, me: Option<UserId>): PendingResult
  {
    match d.pendingSend
    case None => PendingResult([], d)
    case Some(p) =>
      match me
      case None => PendingResult([], d)
      case Some(u) =>
        var row := NewMessage(p.conversationId, u, FileKind, Some(p.content), STEGO_MESSAGE, Some(p.stegoMethod), u);
        PendingResult([InsertMessage(row), UpdateConversationSummary(p.conversationId, ENCRYPTED_MESSAGE, TextKind)],
                      d.(pendingSend := None))
  }

  /** A queued send is written once: the first run issues the two writes into the queued
      conversation with the queued content and empties the queue, and a second run
      writes nothing. */
  lemma PendingSendOnce(d: Directory, u: UserId)
    requires d.pendingSend.Some?
    ensures var first := PendingSendEffect(d, Some(u));
      && |first.writes| == 2
      && first.writes[0].InsertMessage?
      && first.writes[0].row.conversationId == d.pendingSend.value.conversationId
      && first.writes[0].row.hiddenContent == Some(d.pendingSend.value.content)
      && first.writes[1].UpdateConversationSummary?
      && first.writes[1].conversationId == d.pendingSend.value.conversationId
      && first.directory.pendingSend == None
      && PendingSendEffect(first.directory, Some(u)) == PendingResult([], first.directory)
  {
  }

  /** Queued from the open conversation, the stego content lands in that conversation. */
  lemma SendToChatLands(d: Directory, u: UserId, content: string, kind: StegoMethod)
    requires d.selected.Some?
    ensures var out := PendingSendEffect(SendToChat(d, content, kind), Some(u));
      out.writes[0] == InsertMessage(NewMessage(d.selected.value.conv.id, u, FileKind, Some(content), STEGO_MESSAGE, Some(kind), u))
  {
  }
}
