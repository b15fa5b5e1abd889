// Greedy packing of ranked entries into a token budget, the token estimates it runs on, and
// the budget it is given.
module ContextPacking {
  import opened Outcomes

  const CHARS_PER_TOKEN := 4

  // ----- estimates -----

  datatype Json = Null | Scalar | Str(s: string) | Arr(items: seq<Json>) | Obj(members: seq<Member>)

  datatype Member = Member(key: string, value: Json)

  function TextTokens(text: string): nat {
    if text == [] then 0
    else Max(1, (|text| + CHARS_PER_TOKEN - 1) / CHARS_PER_TOKEN)
  }

  function Max(a: nat, b: nat): nat {
    if a < b then b else a
  }

  function ObjectTokens(value: Json): nat {
    match value
    case Null => 1
    case Scalar => 1
    case Str(s) => TextTokens(s)
    case Arr(items) => OrOne(ItemsTokens(items))
    case Obj(members) => OrOne(MembersTokens(members))
  }

  function OrOne(n: nat): nat {
    if n == 0 then 1 else n
  }

  function ItemsTokens(items: seq<Json>): nat {
    if items == [] then 0 else ObjectTokens(items[0]) + ItemsTokens(items[1..])
  }

  function MembersTokens(members: seq<Member>): nat {
    if members == [] then 0
    else TextTokens(members[0].key) + ObjectTokens(members[0].value) + MembersTokens(members[1..])
  }

  // The estimate is the least number of tokens of four characters that holds the text.
  lemma {:induction false} TextTokensIsCeiling(text: string)
    ensures 4 * TextTokens(text) >= |text|
    ensures text != [] ==> 4 * (TextTokens(text) - 1) < |text|
  {
  }

  // Only the empty text is free: nulls, scalars and even empty containers cost a token.
  lemma {:induction false} OnlyEmptyTextIsFree(value: Json)
    ensures ObjectTokens(value) == 0 <==> value == Str([])
  {
    if value.Str? {
      TextTokensIsCeiling(value.s);
    }
  }

  // A container costs what its parts cost, keys included, and at least one token.
  lemma {:induction false} ContainerTokens(items: seq<Json>, item: Json, members: seq<Member>, member: Member)
    ensures ObjectTokens(Null) == ObjectTokens(Scalar) == ObjectTokens(Arr([])) == ObjectTokens(Obj([])) == 1
    ensures ObjectTokens(Str(member.key)) == (|member.key| + 3) / 4
    ensures ItemsTokens(items + [item]) == ItemsTokens(items) + ObjectTokens(item)
    ensures MembersTokens(members + [member])
         == MembersTokens(members) + (|member.key| + 3) / 4 + ObjectTokens(member.value)
    ensures items != [] ==>
              ObjectTokens(Arr(items)) == if ItemsTokens(items) >= 1 then ItemsTokens(items) else 1
    ensures members != [] ==>
              ObjectTokens(Obj(members)) == if MembersTokens(members) >= 1 then MembersTokens(members) else 1
    ensures ItemsTokens([]) == MembersTokens([]) == 0
  {
    ItemsAppend(items, item);
    MembersAppend(members, member);
  }

  lemma {:induction false} ItemsAppend(items: seq<Json>, item: Json)
    ensures ItemsTokens(items + [item]) == ItemsTokens(items) + ObjectTokens(item)
  {
    if items == [] {
      assert [] + [item] == [item] && [item][1..] == [];
    } else {
      ItemsAppend(items[1..], item);
      assert (items + [item])[1..] == items[1..] + [item];
    }
  }

  lemma {:induction false} MembersAppend(members: seq<Member>, m: Member)
    ensures MembersTokens(members + [m]) == MembersTokens(members) + TextTokens(m.key) + ObjectTokens(m.value)
  {
    if members == [] {
      assert [] + [m] == [m] && [m][1..] == [];
    } else {
      MembersAppend(members[1..], m);
      assert (members + [m])[1..] == members[1..] + [m];
    }
  }

  // ----- the input budget -----

  // The utilization target is a real in (0, 1].
  function InputBudget(contextTokens: int, maxOutputTokens: int, overheadTokens: int, target: real)
    : Option<nat>
  {
    if target <= 0.0 || target > 1.0 then None
    else
      var utilizationCap := (contextTokens as real * target).Floor;
      var reserveCap := contextTokens - maxOutputTokens - overheadTokens;
      var cap := if utilizationCap < reserveCap then utilizationCap else reserveCap;
      Some(if cap > 0 then cap else 0)
  }

  // Only a target outside (0, 1] is refused.
  lemma {:induction false} NoBudgetIff(contextTokens: int, maxOutputTokens: int, overheadTokens: int, target: real)
    ensures InputBudget(contextTokens, maxOutputTokens, overheadTokens, target) == None <==> !(0.0 < target <= 1.0)
  {
  }

  // The budget is the largest number of tokens that both caps allow, or zero when they allow none.
  lemma {:induction false} BudgetIsLargest(contextTokens: int, maxOutputTokens: int, overheadTokens: int, target: real,
                                           n: nat)
    requires 0.0 < target <= 1.0 && n > 0
    ensures var budget := InputBudget(contextTokens, maxOutputTokens, overheadTokens, target);
            budget.Some? && (n <= budget.value <==> n as real <= contextTokens as real * target
                                                    && n + maxOutputTokens + overheadTokens <= contextTokens)
  {
    var product := contextTokens as real * target;
    assert n as real <= product <==> n <= product.Floor;
  }

  // ----- packing -----

  datatype Entry = Entry(id: string, tokens: int)

  datatype Packed = Packed(
    included: seq<string>, omitted: seq<string>, complete: bool, used: int, remaining: int)

  datatype PackError = NegativeFixedPayload

  // The greedy choice as an inclusion vector.
  function Greedy(entries: seq<Entry>, budget: int): (v: seq<bool>)
    ensures |v| == |entries|
  {
    if entries == [] then []
    else if entries[0].tokens <= budget then [true] + Greedy(entries[1..], budget - entries[0].tokens)
    else [false] + Greedy(entries[1..], budget)
  }

  // The ids a vector selects, or leaves, in rank order.
  function Chosen(entries: seq<Entry>, v: seq<bool>, mark: bool): seq<string>
    requires |v| == |entries|
  {
    if entries == [] then []
    else (if v[0] == mark then [entries[0].id] else []) + Chosen(entries[1..], v[1..], mark)
  }

  function Cost(entries: seq<Entry>, v: seq<bool>): int
    requires |v| == |entries|
  {
    if entries == [] then 0
    else (if v[0] then entries[0].tokens else 0) + Cost(entries[1..], v[1..])
  }

  // Vector w takes a higher-ranked entry where the two first differ.
  predicate Above(w: seq<bool>, v: seq<bool>)
    requires |w| == |v|
  {
    w != [] && (if w[0] == v[0] then Above(w[1..], v[1..]) else w[0])
  }

  function Ids(entries: seq<Entry>): seq<string> {
    seq(|entries|, i requires 0 <= i < |entries| => entries[i].id)
  }

  lemma {:induction false} SuffixStep(entries: seq<Entry>, v: seq<bool>, i: nat)
    requires |v| == |entries| && i < |entries|
    ensures forall mark :: Chosen(entries[i..], v[i..], mark)
              == (if v[i] == mark then [entries[i].id] + Chosen(entries[i + 1..], v[i + 1..], mark)
                  else Chosen(entries[i + 1..], v[i + 1..], mark))
    ensures Cost(entries[i..], v[i..]) == (if v[i] then entries[i].tokens else 0) + Cost(entries[i + 1..], v[i + 1..])
  {
    assert entries[i..][1..] == entries[i + 1..] && v[i..][1..] == v[i + 1..];
  }

  lemma {:induction false} GreedyStep(entries: seq<Entry>, i: nat, budget: int)
    requires i < |entries|
    ensures Greedy(entries[i..], budget)[0] == (entries[i].tokens <= budget)
    ensures Greedy(entries[i..], budget)[1..]
         == Greedy(entries[i + 1..], if entries[i].tokens <= budget then budget - entries[i].tokens else budget)
  {
    assert entries[i..][1..] == entries[i + 1..];
  }

  lemma {:induction false} MoveHead(done: seq<string>, id: string, rest: seq<string>)
    ensures done + ([id] + rest) == (done + [id]) + rest
  {
  }

  // What the loop has done after i entries, for the greedy vector v.
  ghost predicate PackedTo(entries: seq<Entry>, v: seq<bool>, i: nat, included: seq<string>, omitted: seq<string>,
                           used: int, remaining: int)
    requires i <= |entries| == |v|
  {
    && Greedy(entries[i..], remaining) == v[i..]
    && included + Chosen(entries[i..], v[i..], true) == Chosen(entries, v, true)
    && omitted + Chosen(entries[i..], v[i..], false) == Chosen(entries, v, false)
    && used + Cost(entries[i..], v[i..]) == Cost(entries, v)
  }

  lemma {:induction false} PackStep(entries: seq<Entry>, v: seq<bool>, i: nat, included: seq<string>,
                                    omitted: seq<string>, used: int, remaining: int)
    requires i < |entries| == |v| && PackedTo(entries, v, i, included, omitted, used, remaining)
    ensures var Entry(id, tokens) := entries[i];
            if tokens <= remaining
            then PackedTo(entries, v, i + 1, included + [id], omitted, used + tokens, remaining - tokens)
            else PackedTo(entries, v, i + 1, included, omitted + [id], used, remaining)
  {
    hide Chosen, Cost, Greedy;
    SuffixStep(entries, v, i);
    GreedyStep(entries, i, remaining);
    assert v[i..][0] == v[i] && v[i..][1..] == v[i + 1..];
    MoveHead(included, entries[i].id, Chosen(entries[i + 1..], v[i + 1..], true));
    MoveHead(omitted, entries[i].id, Chosen(entries[i + 1..], v[i + 1..], false));
  }

  method PackRankedEntries(entries: seq<Entry>, inputBudget: int, fixedTokens: int)
    returns (r: Result<Packed, PackError>)
    ensures r.Err? <==> fixedTokens < 0
    ensures r.Ok? && inputBudget < fixedTokens ==>
      r.value == Packed([], Ids(entries), false, 0, 0)
    ensures r.Ok? && inputBudget >= fixedTokens ==>
      var v := Greedy(entries, inputBudget - fixedTokens);
      && r.value.included == Chosen(entries, v, true)
      && r.value.omitted == Chosen(entries, v, false)
      && (r.value.complete <==> Chosen(entries, v, false) == [])
      && r.value.used == Cost(entries, v)
      && r.value.remaining == inputBudget - fixedTokens - Cost(entries, v)
  {
    if fixedTokens < 0 {
      return Err(NegativeFixedPayload);
    }
    if inputBudget < fixedTokens {
      return Ok(Packed([], Ids(entries), false, 0, 0));
    }
    ghost var budget := inputBudget - fixedTokens;
    var remaining := inputBudget - fixedTokens;
    var included: seq<string>, omitted: seq<string>, used := [], [], 0;
    ghost var v := Greedy(entries, budget);
    for i := 0 to |entries|
      invariant PackedTo(entries, v, i, included, omitted, used, remaining)
      invariant remaining == budget - used
    {
      PackStep(entries, v, i, included, omitted, used, remaining);
      if entries[i].tokens <= remaining {
        included := included + [entries[i].id];
        used := used + entries[i].tokens;
        remaining := remaining - entries[i].tokens;
      } else {
        omitted := omitted + [entries[i].id];
      }
    }
    return Ok(Packed(included, omitted, omitted == [], used, remaining));
  }

  // An entry ranked after all others is included exactly when it fits in what those before it
  // left; the included ids, the omitted ids and the cost of the others stay as they are.
  lemma {:induction false} NextEntry(entries: seq<Entry>, e: Entry, budget: int)
    ensures var v, w := Greedy(entries, budget), Greedy(entries + [e], budget);
            var fits := Cost(entries, v) + e.tokens <= budget;
            && Chosen(entries + [e], w, true) == Chosen(entries, v, true) + (if fits then [e.id] else [])
            && Chosen(entries + [e], w, false) == Chosen(entries, v, false) + (if fits then [] else [e.id])
            && Cost(entries + [e], w) == Cost(entries, v) + if fits then e.tokens else 0
    ensures Greedy([], budget) == [] && Chosen([], [], true) == Chosen([], [], false) == [] && Cost([], []) == 0
  {
    if entries == [] {
      assert [] + [e] == [e] && [e][1..] == [];
    } else {
      var rest := if entries[0].tokens <= budget then budget - entries[0].tokens else budget;
      NextEntry(entries[1..], e, rest);
      NextTail(entries, e, budget);
    }
  }

  lemma {:induction false} NextTail(entries: seq<Entry>, e: Entry, budget: int)
    requires entries != []
    ensures (entries + [e])[0] == entries[0] && (entries + [e])[1..] == entries[1..] + [e]
    ensures var rest := if entries[0].tokens <= budget then budget - entries[0].tokens else budget;
            && Greedy(entries + [e], budget)[1..] == Greedy(entries[1..] + [e], rest)
            && Greedy(entries, budget)[1..] == Greedy(entries[1..], rest)
            && Greedy(entries + [e], budget)[0] == Greedy(entries, budget)[0] == (entries[0].tokens <= budget)
  {
    assert (entries + [e])[1..] == entries[1..] + [e];
  }

  // ----- optimality -----

  ghost predicate NonNegative(entries: seq<Entry>) {
    forall i :: 0 <= i < |entries| ==> entries[i].tokens >= 0
  }

  lemma {:induction false} CostNonNegative(entries: seq<Entry>, v: seq<bool>)
    requires NonNegative(entries) && |v| == |entries|
    ensures Cost(entries, v) >= 0
  {
    if entries != [] {
      CostNonNegative(entries[1..], v[1..]);
    }
  }

  // The packer's choice fits, and no choice that fits lies above it.
  lemma {:induction false} GreedyIsOptimal(entries: seq<Entry>, budget: int, w: seq<bool>)
    requires NonNegative(entries) && budget >= 0 && |w| == |entries|
    ensures Cost(entries, Greedy(entries, budget)) <= budget
    ensures Cost(entries, w) <= budget ==> !Above(w, Greedy(entries, budget))
  {
    if entries != [] {
      var rest := if entries[0].tokens <= budget then budget - entries[0].tokens else budget;
      GreedyIsOptimal(entries[1..], rest, w[1..]);
      CostNonNegative(entries[1..], w[1..]);
    }
  }

  // A larger budget never gives a lexicographically smaller choice.
  lemma {:induction false} GreedyIsMonotone(entries: seq<Entry>, small: int, large: int)
    requires NonNegative(entries) && 0 <= small <= large
    ensures !Above(Greedy(entries, small), Greedy(entries, large))
  {
    GreedyIsOptimal(entries, small, Greedy(entries, small));
    GreedyIsOptimal(entries, large, Greedy(entries, small));
  }

  // Optimality singles the packer out: any vector that fits and has nothing above it is Greedy's.
  lemma {:induction false} OptimalIsGreedy(entries: seq<Entry>, budget: int, v: seq<bool>)
    requires NonNegative(entries) && budget >= 0 && |v| == |entries| && Cost(entries, v) <= budget
    requires forall w :: |w| == |entries| && Cost(entries, w) <= budget ==> !Above(w, v)
    ensures v == Greedy(entries, budget)
  {
    var g := Greedy(entries, budget);
    GreedyIsOptimal(entries, budget, v);
    assert !Above(g, v);
    Trichotomy(g, v);
  }

  lemma {:induction false} Trichotomy(w: seq<bool>, v: seq<bool>)
    requires |w| == |v|
    ensures Above(w, v) || Above(v, w) || w == v
  {
    if w != [] {
      Trichotomy(w[1..], v[1..]);
      assert w == [w[0]] + w[1..] && v == [v[0]] + v[1..];
    }
  }

  // The context is complete exactly when all the entries fit together.
  lemma {:induction false} CompleteIff(entries: seq<Entry>, budget: int)
    requires NonNegative(entries) && budget >= 0
    ensures Chosen(entries, Greedy(entries, budget), false) == []
       <==> Cost(entries, seq(|entries|, _ => true)) <= budget
  {
    if entries != [] {
      var all := seq(|entries|, _ => true);
      assert all[1..] == seq(|entries[1..]|, _ => true);
      CostNonNegative(entries[1..], all[1..]);
      if entries[0].tokens <= budget {
        CompleteIff(entries[1..], budget - entries[0].tokens);
      }
    }
  }

  // Included and omitted partition the input in order: merged by the vector they give it back.
  function Merge(v: seq<bool>, included: seq<string>, omitted: seq<string>): Option<seq<string>> {
    if v == [] then (if included == [] && omitted == [] then Some([]) else None)
    else if v[0] then
      if included == [] then None
      else
        var rest := Merge(v[1..], included[1..], omitted);
        if rest.None? then None else Some([included[0]] + rest.value)
    else
      if omitted == [] then None
      else
        var rest := Merge(v[1..], included, omitted[1..]);
        if rest.None? then None else Some([omitted[0]] + rest.value)
  }

  lemma {:induction false} PartitionsInOrder(entries: seq<Entry>, v: seq<bool>)
    requires |v| == |entries|
    ensures Merge(v, Chosen(entries, v, true), Chosen(entries, v, false))
         == Some(Ids(entries))
    ensures |Chosen(entries, v, true)| + |Chosen(entries, v, false)| == |entries|
  {
    if entries != [] {
      PartitionsInOrder(entries[1..], v[1..]);
      var head := entries[0].id;
      if v[0] {
        assert Chosen(entries, v, true)[0] == head;
        assert Chosen(entries, v, true)[1..] == Chosen(entries[1..], v[1..], true);
        assert Chosen(entries, v, false) == Chosen(entries[1..], v[1..], false);
      } else {
        assert Chosen(entries, v, false)[0] == head;
        assert Chosen(entries, v, false)[1..] == Chosen(entries[1..], v[1..], false);
        assert Chosen(entries, v, true) == Chosen(entries[1..], v[1..], true);
      }
      assert Ids(entries) == [head] + Ids(entries[1..]);
    } else {
      assert Ids(entries) == [];
    }
  }

  // ----- estimates of either sign -----

  // The running total of the first n estimates.
  function RunningTotal(entries: seq<Entry>, n: nat): int
    requires n <= |entries|
  {
    if n == 0 then 0 else entries[0].tokens + RunningTotal(entries[1..], n - 1)
  }

  // No negative estimate comes after the running total has exceeded `credit`.
  ghost predicate CreditsComeFirst(entries: seq<Entry>, credit: int) {
    forall n, j :: 0 < n <= j < |entries| && RunningTotal(entries, n) > credit ==> entries[j].tokens >= 0
  }

  // At every budget of at least `least` no choice that fits lies above the packer's.
  ghost predicate OptimalFrom(entries: seq<Entry>, least: nat) {
    forall budget: int, w: seq<bool> | budget >= least && |w| == |entries| && Cost(entries, w) <= budget ::
      !Above(w, Greedy(entries, budget))
  }

  // A first entry that the credit covers leaves the question to the rest.
  lemma {:induction false} CoveredFirst(entries: seq<Entry>, credit: int)
    requires entries != [] && entries[0].tokens <= credit
    ensures CreditsComeFirst(entries, credit) <==> CreditsComeFirst(entries[1..], credit - entries[0].tokens)
  {
    var rest, left := entries[1..], credit - entries[0].tokens;
    if CreditsComeFirst(entries, credit) {
      forall n, j | 0 < n <= j < |rest| && RunningTotal(rest, n) > left ensures rest[j].tokens >= 0 {
        assert RunningTotal(entries, n + 1) > credit;
        assert entries[j + 1] == rest[j];
      }
    }
    if CreditsComeFirst(rest, left) {
      forall n, j | 0 < n <= j < |entries| && RunningTotal(entries, n) > credit ensures entries[j].tokens >= 0 {
        assert RunningTotal(rest, n - 1) > left;
        assert rest[j - 1] == entries[j];
      }
    }
  }

  // After a first entry beyond the credit nothing may be negative.
  lemma {:induction false} UncoveredFirst(entries: seq<Entry>, credit: int)
    requires entries != [] && entries[0].tokens > credit
    ensures CreditsComeFirst(entries, credit) <==> NonNegative(entries[1..])
  {
    var rest := entries[1..];
    assert RunningTotal(entries, 1) == entries[0].tokens + RunningTotal(rest, 0);
    if CreditsComeFirst(entries, credit) {
      forall j | 0 <= j < |rest| ensures rest[j].tokens >= 0 {
        assert entries[j + 1] == rest[j];
      }
    }
    if NonNegative(rest) {
      assert forall j :: 0 < j < |entries| ==> entries[j] == rest[j - 1];
    }
  }

  // The choice that takes exactly the negative entries.
  function Credits(entries: seq<Entry>): (v: seq<bool>)
    ensures |v| == |entries|
  {
    if entries == [] then [] else [entries[0].tokens < 0] + Credits(entries[1..])
  }

  lemma {:induction false} CreditsCost(entries: seq<Entry>)
    ensures Cost(entries, Credits(entries)) <= 0
    ensures !NonNegative(entries) ==> Cost(entries, Credits(entries)) < 0
  {
    if entries != [] {
      CreditsCost(entries[1..]);
      assert Credits(entries)[1..] == Credits(entries[1..]);
      if entries[0].tokens >= 0 && NonNegative(entries[1..]) {
        assert forall i :: 0 < i < |entries| ==> entries[i] == entries[1..][i - 1];
      }
    }
  }

  // A covered first entry is taken at every budget, so only the rest can differ.
  lemma {:induction false} OptimalCovered(entries: seq<Entry>, least: nat)
    requires entries != [] && entries[0].tokens <= least
    ensures OptimalFrom(entries, least) <==> OptimalFrom(entries[1..], least - entries[0].tokens)
  {
    var t, rest := entries[0].tokens, entries[1..];
    if OptimalFrom(entries, least) {
      forall budget: int, w: seq<bool> | budget >= least - t && |w| == |rest| && Cost(rest, w) <= budget
        ensures !Above(w, Greedy(rest, budget))
      {
        var longer := [true] + w;
        assert longer[1..] == w && Cost(entries, longer) == t + Cost(rest, w);
        assert !Above(longer, Greedy(entries, budget + t));
      }
    }
    if OptimalFrom(rest, least - t) {
      forall budget: int, w: seq<bool> | budget >= least && |w| == |entries| && Cost(entries, w) <= budget
        ensures !Above(w, Greedy(entries, budget))
      {
        if w[0] {
          assert !Above(w[1..], Greedy(rest, budget - t));
        }
      }
    }
  }

  // A first entry one token too large for the budget is passed over; if anything after it is
  // negative, taking it together with the credits also fits.
  lemma {:induction false} OptimalUncovered(entries: seq<Entry>, least: nat)
    requires entries != [] && entries[0].tokens > least
    ensures OptimalFrom(entries, least) <==> NonNegative(entries[1..])
  {
    var t, rest := entries[0].tokens, entries[1..];
    if NonNegative(rest) {
      assert forall i :: 0 < i < |entries| ==> entries[i] == rest[i - 1];
      forall budget: int, w: seq<bool> | budget >= least && |w| == |entries| && Cost(entries, w) <= budget
        ensures !Above(w, Greedy(entries, budget))
      {
        GreedyIsOptimal(entries, budget, w);
      }
    } else {
      var w := [true] + Credits(rest);
      CreditsCost(rest);
      assert w[1..] == Credits(rest);
      assert Cost(entries, w) <= t - 1;
      assert Above(w, Greedy(entries, t - 1));
    }
  }

  // For estimates of either sign, the packer is optimal at every budget from `least` up exactly
  // when no negative estimate comes after the running total of estimates has exceeded `least`.
  // A call that reaches the packer may have any budget from zero up.
  lemma {:induction false} GreedyIsOptimalIff(entries: seq<Entry>, least: nat)
    ensures OptimalFrom(entries, least) <==> CreditsComeFirst(entries, least)
  {
    if entries == [] {
    } else if entries[0].tokens <= least {
      OptimalCovered(entries, least);
      GreedyIsOptimalIff(entries[1..], least - entries[0].tokens);
      CoveredFirst(entries, least);
    } else {
      OptimalUncovered(entries, least);
      UncoveredFirst(entries, least);
    }
  }

  // The shortest failing list: the greedy choice skips an entry that a later credit would have
  // paid for.
  lemma {:induction false} NegativeEstimateBreaksOptimality()
    ensures exists entries: seq<Entry>, w :: |w| == |entries|
              && Cost(entries, w) <= 0 && Above(w, Greedy(entries, 0))
  {
    var entries := [Entry("a", 5), Entry("b", -5)];
    var w := [true, true];
    assert entries[1..] == [Entry("b", -5)] && w[1..] == [true];
    assert entries[1..][1..] == [] && w[1..][1..] == [];
    assert Cost(entries[1..], w[1..]) == -5;
    assert Cost(entries, w) == 0;
    assert Greedy(entries, 0)[0] == false;
    assert Above(w, Greedy(entries, 0));
  }

  // Across the three calls: entries estimated from payloads and packed into the computed budget
  // leave the reserved output and the instructions their room in the context window.
  lemma {:induction false} PackedPromptFits(payloads: seq<Json>, entries: seq<Entry>, contextTokens: nat,
                                            maxOutputTokens: nat, overheadTokens: nat, target: real, fixedTokens: nat)
    requires |entries| == |payloads|
    requires forall i :: 0 <= i < |entries| ==> entries[i].tokens == ObjectTokens(payloads[i])
    requires InputBudget(contextTokens, maxOutputTokens, overheadTokens, target).Some?
    requires maxOutputTokens + overheadTokens <= contextTokens
    requires fixedTokens <= InputBudget(contextTokens, maxOutputTokens, overheadTokens, target).value
    ensures var budget := InputBudget(contextTokens, maxOutputTokens, overheadTokens, target).value;
            var used := Cost(entries, Greedy(entries, budget - fixedTokens));
            && 0 <= used
            && fixedTokens + used + maxOutputTokens + overheadTokens <= contextTokens
            && (fixedTokens + used) as real <= contextTokens as real * target
  {
    var budget := InputBudget(contextTokens, maxOutputTokens, overheadTokens, target).value;
    var v := Greedy(entries, budget - fixedTokens);
    CostNonNegative(entries, v);
    GreedyIsOptimal(entries, budget - fixedTokens, v);
    ProductNonNegative(contextTokens, target);
  }

  lemma {:induction false} ProductNonNegative(n: nat, target: real)
    requires target > 0.0
    ensures n as real * target >= 0.0
  {
  }
}
