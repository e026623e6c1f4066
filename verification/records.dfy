/** The rows the frontend reads from and writes to the store (the `conversations` and
    `messages` tables), the writes a handler issues, and the conversation lookup
    "between these two users" that the wizard and the directory share. */
module Records {
  import opened Wrappers

  type UserId = string

  /** `messages.type` and `conversations.last_message_type`. */
  datatype MessageKind = TextKind | FileKind

  /** `"text" | "image" | "audio" | "video"`: the wizard's method and `stego_method`. */
  datatype StegoMethod = TextStego | ImageStego | AudioStego | VideoStego

  datatype Conversation = Conversation(
    id: string,
    user1: UserId,
    user2: UserId,
    lastMessage: Option<string>,
    lastMessageType: Option<MessageKind>,
    updatedAt: string)

  datatype Message = Message(
    id: string,
    conversationId: string,
    senderId: UserId,
    hiddenContent: Option<string>,
    fileUrl: Option<string>,
    fileName: Option<string>,
    kind: MessageKind,
    stegoMethod: Option<StegoMethod>,
    preview: Option<string>,
    createdAt: string)

  /** The columns a handler supplies when it inserts a message; the store adds `id`
      and `created_at`. */
  datatype NewMessage = NewMessage(
    conversationId: string,
    senderId: UserId,
    kind: MessageKind,
    hiddenContent: Option<string>,
    preview: string,
    stegoMethod: Option<StegoMethod>,
    createdBy: UserId)

  /** A write a handler issues, in the order it issues them. The `updated_at` stamp of a
      summary update comes from the clock and is not modelled. */
  datatype StoreWrite =
    | InsertMessage(row: NewMessage)
    | InsertConversation(user1: UserId, user2: UserId, lastMessage: Option<string>,
                         lastMessageType: Option<MessageKind>)
    | UpdateConversationSummary(conversationId: string, summary: string,
                                summaryType: MessageKind)

  const ENCRYPTED_MESSAGE: string := "\U{1F512} Encrypted message"
  const ENCRYPTED_FILE: string := "\U{1F510} Encrypted file"
  const STEGO_MESSAGE: string := "\U{1F510} Stego message"

  /** The filter `and(user1.eq.a,user2.eq.b),and(user1.eq.b,user2.eq.a)`. */
  predicate Between(c: Conversation, a: UserId, b: UserId)
  {
    (c.user1 == a && c.user2 == b) || (c.user1 == b && c.user2 == a)
  }

  /** The rows of `convs` between `a` and `b`, in store order. */
  function Matching(convs: seq<Conversation>, a: UserId, b: UserId): (r: seq<Conversation>)
    ensures |r| <= |convs|
    ensures forall i :: 0 <= i < |r| ==> r[i] in convs && Between(r[i], a, b)
  {
    if convs == [] then []
    else if Between(convs[0], a, b) then [convs[0]] + Matching(convs[1..], a, b)
    else Matching(convs[1..], a, b)
  }

  /** The data of `.single()` and `.maybeSingle()` on that filter: the row when exactly
      one row matches, and null when none or several match (the latter is an error
      whose data is null). */
  function FindBetween(convs: seq<Conversation>, a: UserId, b: UserId): Option<Conversation>
  {
    var m := Matching(convs, a, b);
    if |m| == 1 then Some(m[0]) else None
  }

  /** Every matching row is kept by the filter. */
  lemma {:induction false} MatchingComplete(convs: seq<Conversation>, a: UserId, b: UserId, c: Conversation)
    requires c in convs && Between(c, a, b)
    ensures c in Matching(convs, a, b)
  {
    if convs[0] != c {
      MatchingComplete(convs[1..], a, b, c);
    }
  }

  lemma {:induction false} MatchingAppend(convs: seq<Conversation>, c: Conversation, a: UserId, b: UserId)
    ensures Matching(convs + [c], a, b) == Matching(convs, a, b) + (if Between(c, a, b) then [c] else [])
  {
    if convs == [] {
      assert convs + [c] == [c];
    } else {
      assert (convs + [c])[1..] == convs[1..] + [c];
      MatchingAppend(convs[1..], c, a, b);
    }
  }

  /** The lookup finds a row exactly when a single row of `convs` lies between the two
      users, and the row it finds is that one, in either participant order. */
  lemma FindBetweenFound(convs: seq<Conversation>, a: UserId, b: UserId)
    ensures FindBetween(convs, a, b).Some? <==> |Matching(convs, a, b)| == 1
    ensures FindBetween(convs, a, b).Some? ==>
      var c := FindBetween(convs, a, b).value;
      && c in convs && Between(c, a, b)
      && (forall d :: d in convs && Between(d, a, b) ==> d == c)
      && FindBetween(convs, b, a) == Some(c)
  {
    var m := Matching(convs, a, b);
    if |m| == 1 {
      forall d | d in convs && Between(d, a, b)
        ensures d == m[0]
      {
        MatchingComplete(convs, a, b, d);
      }
      MatchingSymmetric(convs, a, b);
    }
  }

  lemma {:induction false} MatchingSymmetric(convs: seq<Conversation>, a: UserId, b: UserId)
    ensures Matching(convs, a, b) == Matching(convs, b, a)
  {
    if convs != [] {
      MatchingSymmetric(convs[1..], a, b);
    }
  }

  /** No row is stored twice (rows carry distinct primary keys). */
  predicate RowsDistinct(convs: seq<Conversation>)
  {
    forall i, j :: 0 <= i < j < |convs| ==> convs[i] != convs[j]
  }

  /** A store holding no row between the two users has no match. */
  lemma {:induction false} MatchingNone(convs: seq<Conversation>, a: UserId, b: UserId)
    requires forall e :: e in convs ==> !Between(e, a, b)
    ensures Matching(convs, a, b) == []
  {
    if convs != [] {
      assert convs[0] in convs;
      MatchingNone(convs[1..], a, b);
    }
  }

  /** When `c` is the only row between the two users, it is the single match. */
  lemma {:induction false} MatchingSingle(convs: seq<Conversation>, a: UserId, b: UserId, c: Conversation)
    requires RowsDistinct(convs)
    requires c in convs && Between(c, a, b)
    requires forall e :: e in convs && Between(e, a, b) ==> e == c
    ensures Matching(convs, a, b) == [c]
  {
    var rest := convs[1..];
    assert RowsDistinct(rest) by {
      forall i, j | 0 <= i < j < |rest| ensures rest[i] != rest[j] {
        assert rest[i] == convs[i + 1] && rest[j] == convs[j + 1];
      }
    }
    if convs[0] != c {
      assert c in rest by {
        var k :| 0 <= k < |convs| && convs[k] == c;
        assert rest[k - 1] == c;
      }
      MatchingSingle(rest, a, b, c);
    } else {
      assert forall e :: e in rest ==> e != c by {
        forall e | e in rest ensures e != c {
          var k :| 0 <= k < |rest| && rest[k] == e;
          assert convs[k + 1] == e && convs[0] == c;
        }
      }
      MatchingNone(rest, a, b);
    }
  }

  /** Resolve-or-create settles: when no row lay between the two users and the store
      appends the created row, looking up again finds the created row. */
  lemma ResolveAfterCreate(convs: seq<Conversation>, a: UserId, b: UserId, created: Conversation)
    requires |Matching(convs, a, b)| == 0
    requires created.user1 == a && created.user2 == b
    ensures FindBetween(convs + [created], a, b) == Some(created)
    ensures FindBetween(convs + [created], b, a) == Some(created)
  {
    MatchingAppend(convs, created, a, b);
    FindBetweenFound(convs + [created], a, b);
  }
}
