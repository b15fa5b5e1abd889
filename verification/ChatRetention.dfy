// Bounded physical expiry of completed chat turns, their messages and idle conversations.
// Timestamps and UUIDs are integers, and the retention cutoff is a given timestamp.
module ChatRetention {
  import opened Outcomes
  import opened Keyset
  import opened Sequences
  import opened DueRows

  datatype Status = Pending | Completed

  datatype Turn = Turn(
    id: int, conversation: int, status: Status, completedAt: Option<int>,
    expiresAt: Option<int>, leaseExpiresAt: Option<int>)

  datatype Message = Message(id: int, turn: int, conversation: int, expiresAt: Option<int>)

  datatype Conversation = Conversation(id: int, updatedAt: int)

  datatype Store = Store(turns: seq<Turn>, messages: seq<Message>, conversations: seq<Conversation>)

  datatype Report = Report(
    turnsPurged: int, messagesPurged: int, conversationsPurged: int, batchLimitReached: bool)

  datatype PurgeError = InvalidBatchSize | AuditUnavailable

  // ----- the table constraints -----

  ghost predicate Integrity(s: Store) {
    && DistinctBy(s.turns, TurnId)
    && DistinctBy(s.conversations, ConversationId)
    && (forall t :: t in s.turns ==> HasConversation(s, t.conversation))
    && (forall m :: m in s.messages ==> HasTurn(s, m))
  }

  ghost predicate HasConversation(s: Store, conversation: int) {
    exists c :: c in s.conversations && c.id == conversation
  }

  // The composite foreign key: the message's turn exists and lies in the message's conversation.
  ghost predicate HasTurn(s: Store, m: Message) {
    exists t :: t in s.turns && t.id == m.turn && t.conversation == m.conversation
  }

  function TurnId(t: Turn): int { t.id }
  function ConversationId(c: Conversation): int { c.id }

  // ----- what one purge may delete -----

  predicate Expired(m: Message, now: int) {
    m.expiresAt.Some? && m.expiresAt.value <= now
  }

  predicate Eligible(messages: seq<Message>, now: int, t: Turn) {
    && t.status.Completed?
    && t.completedAt.Some?
    && t.expiresAt.Some?
    && t.leaseExpiresAt.None?
    && t.expiresAt.value <= now
    && forall m :: m in messages && m.turn == t.id ==> Expired(m, now)
  }

  predicate Idle(turns: seq<Turn>, cutoff: int, c: Conversation) {
    c.updatedAt <= cutoff && forall t :: t in turns ==> t.conversation != c.id
  }

  function TurnKey(t: Turn): Key {
    Key(if t.expiresAt.Some? then t.expiresAt.value else 0, t.id)
  }

  function ConversationKey(c: Conversation): Key {
    Key(c.updatedAt, c.id)
  }

  function PickTurns(s: Store, now: int, limit: nat, locked: set<int>): seq<Turn> {
    Pick(s.turns, (t: Turn) => Eligible(s.messages, now, t) && t.id !in locked, TurnKey, limit)
  }

  function PickConversations(s: Store, cutoff: int, limit: nat, locked: set<int>): seq<Conversation> {
    Pick(s.conversations, (c: Conversation) => Idle(s.turns, cutoff, c) && c.id !in locked,
         ConversationKey, limit)
  }

  function WithoutTurns(s: Store, ids: set<int>): Store {
    Store(Filter(s.turns, (t: Turn) => t.id !in ids),
          Filter(s.messages, (m: Message) => m.turn !in ids),
          s.conversations)
  }

  function WithoutConversations(s: Store, ids: set<int>): Store {
    s.(conversations := Filter(s.conversations, (c: Conversation) => c.id !in ids))
  }

  function TurnIds(turns: seq<Turn>): set<int> {
    set t | t in turns :: t.id
  }

  function ConversationIds(conversations: seq<Conversation>): set<int> {
    set c | c in conversations :: c.id
  }

  // One bounded batch, as a change of the whole store: the oldest eligible unlocked turns go
  // with all of their messages, then the oldest conversations left without a turn.
  function AfterTurns(s: Store, now: int, limit: nat, lockedTurns: set<int>): Store {
    WithoutTurns(s, TurnIds(PickTurns(s, now, limit, lockedTurns)))
  }

  function Step(s: Store, now: int, cutoff: int, limit: nat, lockedTurns: set<int>,
                lockedConversations: set<int>): Store
  {
    var mid := AfterTurns(s, now, limit, lockedTurns);
    WithoutConversations(mid, ConversationIds(PickConversations(mid, cutoff, limit, lockedConversations)))
  }

  predicate LimitReached(s: Store, now: int, cutoff: int, limit: nat, lockedTurns: set<int>,
                         lockedConversations: set<int>)
  {
    || |PickTurns(s, now, limit, lockedTurns)| == limit
    || |PickConversations(AfterTurns(s, now, limit, lockedTurns), cutoff, limit, lockedConversations)| == limit
  }

  // ----- facts about one batch -----

  lemma {:induction false} PickedTurns(s: Store, now: int, limit: nat, locked: set<int>)
    requires Integrity(s)
    ensures var picked := PickTurns(s, now, limit, locked);
            && |picked| <= limit
            && DistinctBy(picked, TurnId)
            && (forall t :: t in picked ==> t in s.turns && Eligible(s.messages, now, t) && t.id !in locked)
            && (|picked| < limit ==>
                  forall t :: t in s.turns && Eligible(s.messages, now, t) && t.id !in locked ==> t in picked)
  {
    PickMeaning(s.turns, (t: Turn) => Eligible(s.messages, now, t) && t.id !in locked, TurnKey, limit);
  }

  lemma {:induction false} PickedConversations(s: Store, cutoff: int, limit: nat, locked: set<int>)
    requires Integrity(s)
    ensures var picked := PickConversations(s, cutoff, limit, locked);
            && |picked| <= limit
            && DistinctBy(picked, ConversationId)
            && (forall c :: c in picked ==> c in s.conversations && Idle(s.turns, cutoff, c) && c.id !in locked)
            && (|picked| < limit ==>
                  forall c :: c in s.conversations && Idle(s.turns, cutoff, c) && c.id !in locked ==> c in picked)
  {
    PickMeaning(s.conversations, (c: Conversation) => Idle(s.turns, cutoff, c) && c.id !in locked,
                ConversationKey, limit);
  }

  // A turn that retention may delete, on its fields: completed, with both dates and no lease, its
  // expiry reached, and so that of each of its messages.
  ghost predicate Deletable(s: Store, now: int, t: Turn) {
    && t.status == Completed && t.completedAt != None && t.leaseExpiresAt == None
    && t.expiresAt.Some? && t.expiresAt.value <= now
    && forall m :: m in s.messages && m.turn == t.id ==> m.expiresAt.Some? && m.expiresAt.value <= now
  }

  lemma {:induction false} EligibleOnFields(s: Store, now: int, t: Turn)
    ensures Eligible(s.messages, now, t) <==> Deletable(s, now, t)
  {
  }

  // A batch never passes over a deletable unlocked turn in favour of one that expired later, or
  // at the same time with a greater id, and when it leaves one behind it is full.
  lemma {:induction false} OldestFirst(s: Store, now: int, limit: nat, locked: set<int>, left: Turn)
    requires Integrity(s)
    requires left in AfterTurns(s, now, limit, locked).turns
    requires Deletable(s, now, left) && left.id !in locked
    ensures |s.turns| - |AfterTurns(s, now, limit, locked).turns| == limit
    ensures forall gone :: gone in s.turns && gone !in AfterTurns(s, now, limit, locked).turns ==>
      && gone.expiresAt.Some?
      && (|| gone.expiresAt.value < left.expiresAt.value
          || (gone.expiresAt.value == left.expiresAt.value && gone.id < left.id))
  {
    TurnsRemoved(s, now, limit, locked);
    PickedTurns(s, now, limit, locked);
    PickMeaning(s.turns, (t: Turn) => Eligible(s.messages, now, t) && t.id !in locked, TurnKey, limit);
    EligibleOnFields(s, now, left);
    forall gone | gone in s.turns && gone !in AfterTurns(s, now, limit, locked).turns
      ensures gone.expiresAt.Some? && Less(TurnKey(gone), TurnKey(left))
    {
    }
  }

  // The same for conversations without a turn, by their last update.
  lemma {:induction false} IdlestFirst(s: Store, cutoff: int, limit: nat, locked: set<int>, left: Conversation)
    requires Integrity(s)
    requires var after := WithoutConversations(s, ConversationIds(PickConversations(s, cutoff, limit, locked)));
             left in after.conversations
    requires left.updatedAt <= cutoff && left.id !in locked && forall t :: t in s.turns ==> t.conversation != left.id
    ensures var after := WithoutConversations(s, ConversationIds(PickConversations(s, cutoff, limit, locked)));
            && |s.conversations| - |after.conversations| == limit
            && forall gone :: gone in s.conversations && gone !in after.conversations ==>
                 gone.updatedAt < left.updatedAt || (gone.updatedAt == left.updatedAt && gone.id < left.id)
  {
    ConversationsRemoved(s, cutoff, limit, locked);
    PickedConversations(s, cutoff, limit, locked);
    PickMeaning(s.conversations, (c: Conversation) => Idle(s.turns, cutoff, c) && c.id !in locked,
                ConversationKey, limit);
    var after := WithoutConversations(s, ConversationIds(PickConversations(s, cutoff, limit, locked)));
    forall gone | gone in s.conversations && gone !in after.conversations
      ensures Less(ConversationKey(gone), ConversationKey(left))
    {
    }
  }

  lemma {:induction false} SameId<T>(s: seq<T>, id: T -> int, x: T, y: T)
    requires DistinctBy(s, id) && x in s && y in s && id(x) == id(y)
    ensures x == y
  {
    var i :| 0 <= i < |s| && s[i] == x;
    var j :| 0 <= j < |s| && s[j] == y;
  }

  // A turn is removed exactly when it was picked.
  lemma {:induction false} TurnsRemoved(s: Store, now: int, limit: nat, locked: set<int>)
    requires Integrity(s)
    ensures var picked := PickTurns(s, now, limit, locked);
            var mid := AfterTurns(s, now, limit, locked);
            && (forall t :: t in mid.turns <==> t in s.turns && t !in picked)
            && (forall t :: t in s.turns ==> (t in picked <==> t.id in TurnIds(picked)))
            && |s.turns| - |mid.turns| == |picked|
            && (forall m :: m in mid.messages <==> m in s.messages && m.turn !in TurnIds(picked))
  {
    var picked := PickTurns(s, now, limit, locked);
    var ids := TurnIds(picked);
    PickedTurns(s, now, limit, locked);
    forall t | t in s.turns && t.id in ids ensures t in picked {
      var p :| p in picked && p.id == t.id;
      SameId(s.turns, TurnId, p, t);
    }
    FilterMembers(s.turns, (t: Turn) => t.id !in ids);
    FilterMembers(s.messages, (m: Message) => m.turn !in ids);
    assert ids == IdsOf(picked, TurnId);
    IdsCount(picked, TurnId);
    assert ids <= IdsOf(s.turns, TurnId);
    RemovalCount(s.turns, (t: Turn) => t.id !in ids, TurnId, ids);
  }

  lemma {:induction false} ConversationsRemoved(s: Store, cutoff: int, limit: nat, locked: set<int>)
    requires Integrity(s)
    ensures var picked := PickConversations(s, cutoff, limit, locked);
            var after := WithoutConversations(s, ConversationIds(picked));
            && (forall c :: c in after.conversations <==> c in s.conversations && c !in picked)
            && (forall c :: c in s.conversations ==> (c in picked <==> c.id in ConversationIds(picked)))
            && |s.conversations| - |after.conversations| == |picked|
  {
    var picked := PickConversations(s, cutoff, limit, locked);
    var ids := ConversationIds(picked);
    PickedConversations(s, cutoff, limit, locked);
    forall c | c in s.conversations && c.id in ids ensures c in picked {
      var p :| p in picked && p.id == c.id;
      SameId(s.conversations, ConversationId, p, c);
    }
    FilterMembers(s.conversations, (c: Conversation) => c.id !in ids);
    assert ids == IdsOf(picked, ConversationId);
    IdsCount(picked, ConversationId);
    assert ids <= IdsOf(s.conversations, ConversationId);
    RemovalCount(s.conversations, (c: Conversation) => c.id !in ids, ConversationId, ids);
  }

  lemma {:induction false} TurnDeletionKeepsIntegrity(s: Store, now: int, limit: nat, locked: set<int>)
    requires Integrity(s)
    ensures Integrity(AfterTurns(s, now, limit, locked))
  {
    var picked := PickTurns(s, now, limit, locked);
    var mid := AfterTurns(s, now, limit, locked);
    TurnsRemoved(s, now, limit, locked);
    FilterDistinct(s.turns, (t: Turn) => t.id !in TurnIds(picked), TurnId);
    forall m | m in mid.messages ensures HasTurn(mid, m) {
      assert HasTurn(s, m);
      var t :| t in s.turns && t.id == m.turn && t.conversation == m.conversation;
      assert t in mid.turns;
    }
    forall t | t in mid.turns ensures HasConversation(mid, t.conversation) {
      assert HasConversation(s, t.conversation);
    }
  }

  lemma {:induction false} ConversationDeletionKeepsIntegrity(s: Store, cutoff: int, limit: nat, locked: set<int>)
    requires Integrity(s)
    ensures Integrity(WithoutConversations(s, ConversationIds(PickConversations(s, cutoff, limit, locked))))
  {
    var picked := PickConversations(s, cutoff, limit, locked);
    var after := WithoutConversations(s, ConversationIds(picked));
    PickedConversations(s, cutoff, limit, locked);
    ConversationsRemoved(s, cutoff, limit, locked);
    FilterDistinct(s.conversations, (c: Conversation) => c.id !in ConversationIds(picked), ConversationId);
    forall t | t in after.turns ensures HasConversation(after, t.conversation) {
      assert HasConversation(s, t.conversation);
      var c :| c in s.conversations && c.id == t.conversation;
      assert c in after.conversations;
    }
    forall m | m in after.messages ensures HasTurn(after, m) {
      assert HasTurn(s, m);
    }
  }

  // Whatever rows other sessions hold locked, a batch keeps the foreign keys, and it never
  // removes a pending turn, an unexpired message, or a conversation that still has a turn or
  // was updated after the cutoff.
  lemma {:induction false} StepIsSafe(s: Store, now: int, cutoff: int, limit: nat, lockedTurns: set<int>,
                                      lockedConversations: set<int>)
    requires Integrity(s)
    ensures var after := Step(s, now, cutoff, limit, lockedTurns, lockedConversations);
            && Integrity(after)
            && (forall t :: t in s.turns && t !in after.turns ==>
                  Deletable(s, now, t) && t.id !in lockedTurns)
            && (forall m :: m in s.messages && m !in after.messages ==>
                  m.expiresAt.Some? && m.expiresAt.value <= now && forall t :: t in after.turns ==> t.id != m.turn)
            && (forall c :: c in s.conversations && c !in after.conversations ==>
                  c.updatedAt <= cutoff && c.id !in lockedConversations
                  && forall t :: t in after.turns ==> t.conversation != c.id)
            && |s.turns| - |after.turns| <= limit && |s.conversations| - |after.conversations| <= limit
            && (forall t :: t in after.turns ==> t in s.turns)
            && (forall m :: m in after.messages ==> m in s.messages)
            && (forall c :: c in after.conversations ==> c in s.conversations)
  {
    var mid := AfterTurns(s, now, limit, lockedTurns);
    TurnsRemoved(s, now, limit, lockedTurns);
    PickedTurns(s, now, limit, lockedTurns);
    TurnDeletionKeepsIntegrity(s, now, limit, lockedTurns);
    ConversationsRemoved(mid, cutoff, limit, lockedConversations);
    PickedConversations(mid, cutoff, limit, lockedConversations);
    ConversationDeletionKeepsIntegrity(mid, cutoff, limit, lockedConversations);
    var picked := PickTurns(s, now, limit, lockedTurns);
    forall m | m in s.messages && m.turn in TurnIds(picked)
      ensures Expired(m, now)
      ensures forall t :: t in mid.turns ==> t.id != m.turn
    {
      var p :| p in picked && p.id == m.turn;
      assert Eligible(s.messages, now, p);
    }
  }

  // ----- the unlimited purge -----

  function PurgeAll(s: Store, now: int, cutoff: int): Store {
    var turns := Filter(s.turns, (t: Turn) => !Eligible(s.messages, now, t));
    Store(turns,
          Filter(s.messages, (m: Message) => m.turn !in EligibleIds(s, now)),
          Filter(s.conversations, (c: Conversation) => !Idle(turns, cutoff, c)))
  }

  function EligibleIds(s: Store, now: int): set<int> {
    set t | t in s.turns && Eligible(s.messages, now, t) :: t.id
  }

  // What the unlimited purge leaves: the turns that are not deletable, the messages whose turn is
  // left, and the conversations that were updated after the cutoff or still have a turn.
  lemma {:induction false} PurgeAllMeaning(s: Store, now: int, cutoff: int)
    requires Integrity(s)
    ensures var after := PurgeAll(s, now, cutoff);
            && (forall t :: t in after.turns <==> t in s.turns && !Deletable(s, now, t))
            && (forall m :: m in after.messages <==>
                  m in s.messages && exists t :: t in after.turns && t.id == m.turn)
            && (forall c :: c in after.conversations <==>
                  c in s.conversations
                  && (c.updatedAt > cutoff || exists t :: t in after.turns && t.conversation == c.id))
  {
    var after := PurgeAll(s, now, cutoff);
    forall t | t in s.turns ensures Eligible(s.messages, now, t) <==> Deletable(s, now, t) {
      EligibleOnFields(s, now, t);
    }
    FilterMembers(s.turns, (t: Turn) => !Eligible(s.messages, now, t));
    FilterMembers(s.messages, (m: Message) => m.turn !in EligibleIds(s, now));
    FilterMembers(s.conversations, (c: Conversation) => !Idle(after.turns, cutoff, c));
    forall m | m in s.messages
      ensures m.turn !in EligibleIds(s, now) <==> exists t :: t in after.turns && t.id == m.turn
    {
      assert HasTurn(s, m);
      var t :| t in s.turns && t.id == m.turn;
      forall u | u in s.turns && u.id == m.turn ensures u == t {
        SameId(s.turns, TurnId, u, t);
      }
    }
  }

  // Deleting one batch leaves every other turn exactly as eligible as it was.
  lemma {:induction false} EligibilityIsLocal(s: Store, now: int, limit: nat, t: Turn)
    requires Integrity(s)
    requires t in AfterTurns(s, now, limit, {}).turns
    ensures Eligible(AfterTurns(s, now, limit, {}).messages, now, t) <==> Eligible(s.messages, now, t)
  {
    TurnsRemoved(s, now, limit, {});
  }

  lemma {:induction false} PurgeAllAbsorbsTurns(s: Store, now: int, cutoff: int, limit: nat)
    requires Integrity(s)
    ensures PurgeAll(AfterTurns(s, now, limit, {}), now, cutoff) == PurgeAll(s, now, cutoff)
  {
    var picked, mid := PickTurns(s, now, limit, {}), AfterTurns(s, now, limit, {});
    var ids := TurnIds(picked);
    TurnsRemoved(s, now, limit, {});
    PickedTurns(s, now, limit, {});
    forall t | t in mid.turns
      ensures Eligible(mid.messages, now, t) <==> Eligible(s.messages, now, t)
    {
      EligibilityIsLocal(s, now, limit, t);
    }
    var stays := (t: Turn) => !Eligible(s.messages, now, t);
    FilterCongruent(mid.turns, (t: Turn) => !Eligible(mid.messages, now, t), stays);
    FilterTwice(s.turns, (t: Turn) => t.id !in ids, stays, stays);
    assert EligibleIds(s, now) == EligibleIds(mid, now) + ids;
    FilterTwice(s.messages, (m: Message) => m.turn !in ids,
                (m: Message) => m.turn !in EligibleIds(mid, now),
                (m: Message) => m.turn !in EligibleIds(s, now));
  }

  lemma {:induction false} PurgeAllAbsorbsConversations(s: Store, now: int, cutoff: int, limit: nat)
    requires Integrity(s)
    ensures PurgeAll(WithoutConversations(s, ConversationIds(PickConversations(s, cutoff, limit, {}))), now, cutoff)
         == PurgeAll(s, now, cutoff)
  {
    var picked := PickConversations(s, cutoff, limit, {});
    PickedConversations(s, cutoff, limit, {});
    ConversationsRemoved(s, cutoff, limit, {});
    var stay := Filter(s.turns, (t: Turn) => !Eligible(s.messages, now, t));
    FilterMembers(s.turns, (t: Turn) => !Eligible(s.messages, now, t));
    var active := (c: Conversation) => !Idle(stay, cutoff, c);
    FilterTwice(s.conversations, (c: Conversation) => c.id !in ConversationIds(picked), active, active);
  }

  // A batch that stays below its limit was a complete purge.
  lemma {:induction false} UnlimitedStep(s: Store, now: int, cutoff: int, limit: nat)
    requires Integrity(s) && !LimitReached(s, now, cutoff, limit, {}, {})
    ensures Step(s, now, cutoff, limit, {}, {}) == PurgeAll(s, now, cutoff)
  {
    var picked, mid := PickTurns(s, now, limit, {}), AfterTurns(s, now, limit, {});
    TurnsRemoved(s, now, limit, {});
    PickedTurns(s, now, limit, {});
    TurnDeletionKeepsIntegrity(s, now, limit, {});
    assert TurnIds(picked) == EligibleIds(s, now);
    FilterCongruent(s.turns, (t: Turn) => t.id !in TurnIds(picked),
                    (t: Turn) => !Eligible(s.messages, now, t));
    var idle := PickConversations(mid, cutoff, limit, {});
    PickedConversations(mid, cutoff, limit, {});
    ConversationsRemoved(mid, cutoff, limit, {});
    FilterCongruent(mid.conversations, (c: Conversation) => c.id !in ConversationIds(idle),
                    (c: Conversation) => !Idle(mid.turns, cutoff, c));
  }

  // A batch that reaches its limit removed at least one row.
  lemma {:induction false} LimitedStepShrinks(s: Store, now: int, cutoff: int, limit: nat)
    requires Integrity(s) && limit >= 1 && LimitReached(s, now, cutoff, limit, {}, {})
    ensures var after := Step(s, now, cutoff, limit, {}, {});
            |after.turns| + |after.conversations| < |s.turns| + |s.conversations|
  {
    TurnsRemoved(s, now, limit, {});
    TurnDeletionKeepsIntegrity(s, now, limit, {});
    ConversationsRemoved(AfterTurns(s, now, limit, {}), cutoff, limit, {});
  }

  // The operator repeats the purge until a report says the limit was not reached.
  ghost function Drain(s: Store, now: int, cutoff: int, limit: nat): Store
    requires Integrity(s) && limit >= 1
    decreases |s.turns| + |s.conversations|
  {
    var after := Step(s, now, cutoff, limit, {}, {});
    if LimitReached(s, now, cutoff, limit, {}, {}) then
      StepIsSafe(s, now, cutoff, limit, {}, {});
      LimitedStepShrinks(s, now, cutoff, limit);
      Drain(after, now, cutoff, limit)
    else
      after
  }

  // For every batch size, draining terminates in the state of one unlimited purge.
  lemma {:induction false} DrainEqualsPurgeAll(s: Store, now: int, cutoff: int, limit: nat)
    requires Integrity(s) && limit >= 1
    ensures Drain(s, now, cutoff, limit) == PurgeAll(s, now, cutoff)
    decreases |s.turns| + |s.conversations|
  {
    if LimitReached(s, now, cutoff, limit, {}, {}) {
      var after := Step(s, now, cutoff, limit, {}, {});
      StepIsSafe(s, now, cutoff, limit, {}, {});
      LimitedStepShrinks(s, now, cutoff, limit);
      DrainEqualsPurgeAll(after, now, cutoff, limit);
      TurnDeletionKeepsIntegrity(s, now, limit, {});
      PurgeAllAbsorbsConversations(AfterTurns(s, now, limit, {}), now, cutoff, limit);
      PurgeAllAbsorbsTurns(s, now, cutoff, limit);
    } else {
      UnlimitedStep(s, now, cutoff, limit);
    }
  }

  // ----- the transaction -----

  class ChatTables {
    var turns: seq<Turn>
    var messages: seq<Message>
    var conversations: seq<Conversation>

    constructor (s: Store)
      ensures Contents() == s
    {
      turns, messages, conversations := s.turns, s.messages, s.conversations;
    }

    ghost function Contents(): Store
      reads this
    {
      Store(turns, messages, conversations)
    }

    // Deletes one batch of turns, messages first. `complete` compares the deleted row count with
    // the selected one.
    method DeleteTurns(now: int, limit: nat, locked: set<int>) returns (complete: bool, full: bool)
      requires Integrity(Contents())
      modifies this
      ensures complete
      ensures full == (|PickTurns(old(Contents()), now, limit, locked)| == limit)
      ensures Contents() == AfterTurns(old(Contents()), now, limit, locked)
    {
      var s := Store(turns, messages, conversations);
      var picked := PickTurns(s, now, limit, locked);
      var ids := TurnIds(picked);
      complete, full := true, |picked| == limit;
      if picked != [] {
        PickedMessagesExpire(s, now, limit, locked);
        PickedTurnsStayEligible(s, now, limit, locked);
        TurnsRemoved(s, now, limit, locked);
        var kept := Filter(messages, (m: Message) => !(m.turn in ids && Expired(m, now)));
        messages := kept;
        turns := Filter(turns, (t: Turn) => !(t.id in ids && Eligible(kept, now, t)));
        complete := |s.turns| - |turns| == |picked|;
      } else {
        NothingPicked(s, now, limit, locked);
      }
    }

    method DeleteConversations(cutoff: int, limit: nat, locked: set<int>) returns (full: bool)
      requires Integrity(Contents())
      modifies this
      ensures full == (|PickConversations(old(Contents()), cutoff, limit, locked)| == limit)
      ensures Contents() == WithoutConversations(old(Contents()),
        ConversationIds(PickConversations(old(Contents()), cutoff, limit, locked)))
    {
      var s := Store(turns, messages, conversations);
      var picked := PickConversations(s, cutoff, limit, locked);
      var ids := ConversationIds(picked);
      full := |picked| == limit;
      if picked != [] {
        PickedConversationsStayIdle(s, cutoff, limit, locked);
        conversations := Filter(conversations,
          (c: Conversation) => !(c.id in ids && c.updatedAt <= cutoff && Idle(s.turns, cutoff, c)));
      } else {
        FilterAll(s.conversations, (c: Conversation) => c.id !in ConversationIds([]));
      }
    }

    // One transaction. `auditAccepted` is whether the closing audit append goes through; on any
    // failure every row is rolled back. The row counts never disagree.
    method RunPurge(now: int, cutoff: int, batchSize: int, lockedTurns: set<int>,
                    lockedConversations: set<int>, auditAccepted: bool)
      returns (r: Result<Report, PurgeError>)
      requires Integrity(Contents())
      modifies this
      ensures r.Err? ==> Contents() == old(Contents())
      ensures r == (if batchSize <= 0 then Err(InvalidBatchSize)
                    else if !auditAccepted then Err(AuditUnavailable)
                    else Ok(Report(|old(turns)| - |turns|, |old(messages)| - |messages|,
                                   |old(conversations)| - |conversations|,
                                   LimitReached(old(Contents()), now, cutoff, batchSize, lockedTurns,
                                                lockedConversations))))
      ensures r.Ok? ==> (r.value.batchLimitReached <==>
                           r.value.turnsPurged == batchSize || r.value.conversationsPurged == batchSize)
      ensures r.Ok? ==> Contents() == Step(old(Contents()), now, cutoff, batchSize, lockedTurns,
                                           lockedConversations)
    {
      if batchSize <= 0 {
        return Err(InvalidBatchSize);
      }
      var before := Store(turns, messages, conversations);
      TurnDeletionKeepsIntegrity(before, now, batchSize, lockedTurns);
      TurnsRemoved(before, now, batchSize, lockedTurns);
      ConversationsRemoved(AfterTurns(before, now, batchSize, lockedTurns), cutoff, batchSize, lockedConversations);
      var complete, turnsFull := DeleteTurns(now, batchSize, lockedTurns);
      assert complete;  // the rollback for an incomplete batch is unreachable
      var conversationsFull := DeleteConversations(cutoff, batchSize, lockedConversations);
      if !auditAccepted {
        turns, messages, conversations := before.turns, before.messages, before.conversations;
        return Err(AuditUnavailable);
      }
      return Ok(Report(|before.turns| - |turns|, |before.messages| - |messages|,
                       |before.conversations| - |conversations|, turnsFull || conversationsFull));
    }
  }

  // The DELETE statements repeat their predicates; each repetition changes nothing.
  lemma {:induction false} PickedMessagesExpire(s: Store, now: int, limit: nat, locked: set<int>)
    requires Integrity(s)
    ensures var ids := TurnIds(PickTurns(s, now, limit, locked));
            Filter(s.messages, (m: Message) => !(m.turn in ids && Expired(m, now)))
            == WithoutTurns(s, ids).messages
  {
    var picked := PickTurns(s, now, limit, locked);
    var ids := TurnIds(picked);
    PickedTurns(s, now, limit, locked);
    forall m | m in s.messages && m.turn in ids ensures Expired(m, now) {
      var p :| p in picked && p.id == m.turn;
      assert Eligible(s.messages, now, p);
    }
    FilterCongruent(s.messages, (m: Message) => !(m.turn in ids && Expired(m, now)),
                    (m: Message) => m.turn !in ids);
  }

  lemma {:induction false} PickedTurnsStayEligible(s: Store, now: int, limit: nat, locked: set<int>)
    requires Integrity(s)
    ensures var ids := TurnIds(PickTurns(s, now, limit, locked));
            var kept := WithoutTurns(s, ids).messages;
            Filter(s.turns, (t: Turn) => !(t.id in ids && Eligible(kept, now, t)))
            == WithoutTurns(s, ids).turns
  {
    var picked := PickTurns(s, now, limit, locked);
    var ids := TurnIds(picked);
    var kept := WithoutTurns(s, ids).messages;
    PickedTurns(s, now, limit, locked);
    TurnsRemoved(s, now, limit, locked);
    forall t | t in s.turns && t.id in ids ensures Eligible(kept, now, t) {
      assert Eligible(s.messages, now, t);
    }
    FilterCongruent(s.turns, (t: Turn) => !(t.id in ids && Eligible(kept, now, t)),
                    (t: Turn) => t.id !in ids);
  }

  lemma {:induction false} NothingPicked(s: Store, now: int, limit: nat, locked: set<int>)
    requires PickTurns(s, now, limit, locked) == []
    ensures AfterTurns(s, now, limit, locked) == s
  {
    FilterAll(s.turns, (t: Turn) => t.id !in TurnIds([]));
    FilterAll(s.messages, (m: Message) => m.turn !in TurnIds([]));
  }

  lemma {:induction false} FilterAll<T>(s: seq<T>, keep: T -> bool)
    requires forall x :: x in s ==> keep(x)
    ensures Filter(s, keep) == s
  {
    if s != [] {
      FilterAll(s[1..], keep);
    }
  }

  lemma {:induction false} PickedConversationsStayIdle(s: Store, cutoff: int, limit: nat, locked: set<int>)
    requires Integrity(s)
    ensures var ids := ConversationIds(PickConversations(s, cutoff, limit, locked));
            Filter(s.conversations,
                   (c: Conversation) => !(c.id in ids && c.updatedAt <= cutoff && Idle(s.turns, cutoff, c)))
            == WithoutConversations(s, ids).conversations
  {
    var ids := ConversationIds(PickConversations(s, cutoff, limit, locked));
    PickedConversations(s, cutoff, limit, locked);
    ConversationsRemoved(s, cutoff, limit, locked);
    FilterCongruent(s.conversations,
                    (c: Conversation) => !(c.id in ids && c.updatedAt <= cutoff && Idle(s.turns, cutoff, c)),
                    (c: Conversation) => c.id !in ids);
  }
}
