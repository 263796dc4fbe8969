/**
 * `createMessage` and `getMessages`: wrap the repository's result into the
 * response objects, and derive the next page's cursor.
 */
module MessageUseCase {
  import opened Wrappers
  import opened Schema
  import opened MessageRepository
  import Strings

  /** `{status: "success", data: {message}}` or `{status: "error", message}`. */
  datatype CreateMessageResponse = Created(message: Message) | CreateFailed(error: Error)

  /** `createMessage`: every exception of the repository becomes an error response. */
  method CreateMessage(db: Database, roomId: Id, message: CreateMessageRequest, now: nat)
    returns (r: CreateMessageResponse)
    requires db.Valid()
    modifies db, db.snowflake
    ensures db.Valid()
    ensures unchanged(db`users, db`rooms, db`userRooms)
    ensures r.Created? <==> roomId in RoomIds(old(db.rooms))
                            && message.authorId.Some? && message.authorId.value in UserIds(old(db.users))
    ensures r.Created? ==>
      && r.message == NewMessage(r.message.id, message.content, message.authorId.value, roomId, now)
      && r.message.id !in old(db.snowflake.issued)
      && db.messages == old(db.messages) + [r.message]
    ensures r.CreateFailed? ==> unchanged(db`messages)
    ensures roomId !in RoomIds(old(db.rooms)) ==> r == CreateFailed(Thrown(NoSuchRoom(roomId)))
  {
    var newMessage := Create(db, roomId, message, now);
    match newMessage
    case Ok(row) => r := Created(row);
    case Err(e) => r := CreateFailed(e);
  }

  /** `data` of the `getMessages` response. */
  datatype MessagesPage = MessagesPage(messages: seq<Message>, cursor: Option<Id>)

  /** `messages.length > 0 ? messages[messages.length - 1].id : undefined`. */
  function NextCursor(messages: seq<Message>): (c: Option<Id>)
    ensures c.None? <==> |messages| == 0
    ensures c.Some? ==> c.value == messages[|messages| - 1].id
  {
    if |messages| > 0 then Some(messages[|messages| - 1].id) else None
  }

  /** `getMessages`: the repository's list, unchanged, and its cursor. */
  method GetMessages(db: Database, roomId: Id, params: GetMessagesRequest) returns (r: MessagesPage)
    modifies params`limit
    ensures params.limit == ClampedLimit(old(params.limit))
    ensures r.messages == NewestFirstPage(db.messages, roomId, params.cursor, old(params.limit))
    ensures r.cursor == NextCursor(r.messages)
  {
    var messages := MessageRepository.GetMessages(db, roomId, params);
    r := MessagesPage(messages, NextCursor(messages));
  }

  /**
   * As written, the next page repeats newer messages: with ids "a" < "b" < "c"
   * created at 1, 2, 3 and a limit of 2, the first page is [c, b], its cursor
   * is "b", and `id > "b"` selects c again; a is never listed.
   */
  lemma NewestFirstCursorRepeats(a: Message, b: Message, c: Message)
    requires a == Message("a", "1", "u", "r", 1, 1, false)
    requires b == Message("b", "2", "u", "r", 2, 2, false)
    requires c == Message("c", "3", "u", "r", 3, 3, false)
    ensures NewestFirstPage([a, b, c], "r", None, Some(2)) == [c, b]
    ensures NextCursor([c, b]) == Some("b")
    ensures NewestFirstPage([a, b, c], "r", Some("b"), Some(2)) == [c]
  {
    FirstPageOfThree(a, b, c);
    NextPageOfThree(a, b, c);
  }

  lemma FirstPageOfThree(a: Message, b: Message, c: Message)
    requires a == Message("a", "1", "u", "r", 1, 1, false)
    requires b == Message("b", "2", "u", "r", 2, 2, false)
    requires c == Message("c", "3", "u", "r", 3, 3, false)
    ensures NewestFirstPage([a, b, c], "r", None, Some(2)) == [c, b]
  {
    var all := Conditions("r", None);
    MatchingAllThree(a, b, c);
    SortedThree(a, b, c);
    assert LimitBound(Some(2)) == Some(2);
    var r := Query([a, b, c], all, CreatedAtDesc, Some(2));
    assert |r| == 2;
    assert r == [c, b, a][..2];
  }

  lemma MatchingAllThree(a: Message, b: Message, c: Message)
    requires a.channelId == "r" && b.channelId == "r" && c.channelId == "r"
    ensures Matching([a, b, c], Conditions("r", None)) == [a, b, c]
  {
    var all := Conditions("r", None);
    assert [a, b, c] == [a] + ([b] + ([c] + []));
    assert HoldsAll(all, a) && HoldsAll(all, b) && HoldsAll(all, c);
    MatchingCons(a, [b, c], all);
    MatchingCons(b, [c], all);
    MatchingCons(c, [], all);
  }

  lemma NextPageOfThree(a: Message, b: Message, c: Message)
    requires a == Message("a", "1", "u", "r", 1, 1, false)
    requires b == Message("b", "2", "u", "r", 2, 2, false)
    requires c == Message("c", "3", "u", "r", 3, 3, false)
    ensures NewestFirstPage([a, b, c], "r", Some("b"), Some(2)) == [c]
  {
    MatchingAfterB(a, b, c);
    assert Sort(CreatedAtDesc, [c]) == [c] by {
      assert [c][1..] == [];
      assert Insert(CreatedAtDesc, c, []) == [c];
    }
    assert LimitBound(Some(2)) == Some(2);
  }

  lemma MatchingAfterB(a: Message, b: Message, c: Message)
    requires a.id == "a" && b.id == "b" && c.id == "c" && c.channelId == "r"
    ensures Matching([a, b, c], Conditions("r", Some("b"))) == [c]
  {
    var after := Conditions("r", Some("b"));
    OnlyCAfterB(a, b, c);
    assert Matching([c], after) == [c] by {
      assert [c] == [c] + [];
      MatchingCons(c, [], after);
    }
    assert Matching([b, c], after) == [c] by {
      assert [b, c] == [b] + [c];
      MatchingCons(b, [c], after);
    }
    assert [a, b, c] == [a] + [b, c];
    MatchingCons(a, [b, c], after);
  }

  lemma OnlyCAfterB(a: Message, b: Message, c: Message)
    requires a.id == "a" && b.id == "b" && c.id == "c" && c.channelId == "r"
    ensures var after := Conditions("r", Some("b"));
      !HoldsAll(after, a) && !HoldsAll(after, b) && HoldsAll(after, c)
  {
    assert Strings.Less("b", "c") && !Strings.Less("b", "b") && !Strings.Less("b", "a");
  }

  /** The three messages of the counterexample, newest first. */
  lemma SortedThree(a: Message, b: Message, c: Message)
    requires a.createdAt == 1 && b.createdAt == 2 && c.createdAt == 3
    ensures Sort(CreatedAtDesc, [a, b, c]) == [c, b, a]
  {
    assert [a, b, c][1..] == [b, c] && [b, c][1..] == [c] && [c][1..] == [];
    assert Sort(CreatedAtDesc, []) == [];
    assert Insert(CreatedAtDesc, c, []) == [c];
    assert Sort(CreatedAtDesc, [c]) == [c];
    assert Insert(CreatedAtDesc, b, [c]) == [c, b] by {
      assert Insert(CreatedAtDesc, b, []) == [b];
    }
    assert Sort(CreatedAtDesc, [b, c]) == [c, b];
    assert Insert(CreatedAtDesc, a, [c, b]) == [c, b, a] by {
      assert [c, b][1..] == [b] && [b][1..] == [];
      assert Insert(CreatedAtDesc, a, []) == [a];
      assert Insert(CreatedAtDesc, a, [b]) == [b, a];
    }
  }

  /** Two messages of a table with a primary key that share an id are the same row. */
  lemma SameIdSameMessage(ms: seq<Message>, x: Message, y: Message)
    requires DistinctMessageIds(ms) && x in ms && y in ms
    ensures x.id == y.id ==> x == y
  {
    var i :| 0 <= i < |ms| && ms[i] == x;
    var j :| 0 <= j < |ms| && ms[j] == y;
  }

  /** Corrected: no message of a page has an id below the cursor the page hands out. */
  lemma CursorIsSmallestId(ms: seq<Message>, roomId: Id, cursor: Option<string>, limit: Option<int>)
    requires |OlderPage(ms, roomId, cursor, limit)| > 0
    ensures var p := OlderPage(ms, roomId, cursor, limit);
      forall m | m in p :: !Strings.Less(m.id, NextCursor(p).value)
  {
    var p := OlderPage(ms, roomId, cursor, limit);
    assert Sorted(IdDesc, p);
    LastIsSmallest(p);
  }

  lemma LastIsSmallest(p: seq<Message>)
    requires Sorted(IdDesc, p) && |p| > 0
    ensures forall m | m in p :: !Strings.Less(m.id, p[|p| - 1].id)
  {
    forall m | m in p ensures !Strings.Less(m.id, p[|p| - 1].id) {
      var i :| 0 <= i < |p| && p[i] == m;
      if i < |p| - 1 { assert !Before(IdDesc, p[|p| - 1], p[i]); }
      else { Strings.LessIrreflexive(m.id); }
    }
  }

  /** Corrected: the page after a page, fetched with its cursor, shares no message with it. */
  lemma OlderPagesDisjoint(ms: seq<Message>, roomId: Id, cursor: Option<string>, limit: Option<int>, nextLimit: Option<int>)
    requires |OlderPage(ms, roomId, cursor, limit)| > 0
    requires CursorGiven(NextCursor(OlderPage(ms, roomId, cursor, limit)))
    ensures var p := OlderPage(ms, roomId, cursor, limit);
      var q := OlderPage(ms, roomId, NextCursor(p), nextLimit);
      forall x, y | x in p && y in q :: x.id != y.id
  {
    var p := OlderPage(ms, roomId, cursor, limit);
    var next := NextCursor(p);
    var q := OlderPage(ms, roomId, next, nextLimit);
    CursorIsSmallestId(ms, roomId, cursor, limit);
    forall x, y | x in p && y in q ensures x.id != y.id {
      assert HoldsAll(OlderConditions(roomId, next), y);
      assert Strings.Less(y.id, next.value);
      assert !Strings.Less(x.id, next.value);
    }
  }

  /**
   * Corrected: a message the page's filter selects but the page left out
   * (because of the limit) is selected by the next page's filter, so paging
   * skips nothing.
   */
  lemma OlderPagesSkipNothing(ms: seq<Message>, roomId: Id, cursor: Option<string>, limit: Option<int>, m: Message)
    requires DistinctMessageIds(ms)
    requires |OlderPage(ms, roomId, cursor, limit)| > 0
    requires m in ms && m.channelId == roomId && (CursorGiven(cursor) ==> Strings.Less(m.id, cursor.value))
    requires m !in OlderPage(ms, roomId, cursor, limit)
    ensures Strings.Less(m.id, NextCursor(OlderPage(ms, roomId, cursor, limit)).value)
    ensures HoldsAll(OlderConditions(roomId, NextCursor(OlderPage(ms, roomId, cursor, limit))), m)
  {
    var cs := OlderConditions(roomId, cursor);
    var p := OlderPage(ms, roomId, cursor, limit);
    var sorted := Sort(IdDesc, Matching(ms, cs));
    assert m in Matching(ms, cs);
    assert m in multiset(sorted);
    var last := p[|p| - 1];
    CutOffNotBeforeLast(sorted, p, m);
    assert last in p;
    SameIdSameMessage(ms, m, last);
    Strings.LessTotal(m.id, last.id);
  }

  /** In a sorted list, a message beyond a prefix does not come before the prefix's last message. */
  lemma CutOffNotBeforeLast(sorted: seq<Message>, p: seq<Message>, m: Message)
    requires Sorted(IdDesc, sorted) && 0 < |p| <= |sorted| && p == sorted[..|p|]
    requires m in sorted && m !in p
    ensures !Before(IdDesc, m, p[|p| - 1])
  {
    var k :| 0 <= k < |sorted| && sorted[k] == m;
    assert forall i | 0 <= i < |p| :: p[i] == sorted[i];
    assert k >= |p|;
    assert p[|p| - 1] == sorted[|p| - 1];
  }
}
