/** Routes: configuration, meaning for a record, and the answer of a list of live routes. */
module Routes {
  import opened Patterns
  import opened Rules

  const ROUTING_FIELD_NUMBER: nat := 4
  const MAXIMUM_RULE_NUMBER: nat := 1000

  /** A route as the configuration gives it, or after normalisation. */
  datatype RoutingInfo = RoutingInfo(
    id: nat, priority: nat, from: Word, source: Word, destination: Word, pduType: Word, target: string)

  function StarIfEmpty(w: Word): Word {
    if w == "" then "*" else w
  }

  /** Empty fields become stars, the sender is folded to lower case, the packet kinds become numbers
      and the priority keeps sixteen bits. */
  function Normalise(raw: RoutingInfo): (r: RoutingInfo)
    ensures RouteReady(r) && r.id == raw.id
    ensures r.priority < 0x1_0000 && exists k: nat :: raw.priority == r.priority + k * 0x1_0000
    ensures forall i :: 0 <= i < |r.from| ==> !IsUpper(r.from[i])
    ensures r.from == "*" <==> raw.from == "" || raw.from == "*"
    ensures r.source == if raw.source == "" then "*" else raw.source
    ensures r.destination == if raw.destination == "" then "*" else raw.destination
    ensures r.target == if raw.target == "" then "*" else raw.target
    ensures raw.from != "" ==> r.from == Lower(raw.from)
    ensures raw.pduType == "" ==> r.pduType == "*"
    ensures raw.pduType == "submit" ==> r.pduType == "1"
    ensures raw.pduType == "delivery_report" ==> r.pduType == "2"
    ensures raw.pduType == "deliver" ==> r.pduType == "3"
    ensures raw.pduType !in {"", "submit", "deliver", "delivery_report"} ==> r.pduType == raw.pduType
  {
    var pduType := StarIfEmpty(raw.pduType);
    assert raw.priority == raw.priority % 0x1_0000 + (raw.priority / 0x1_0000) * 0x1_0000;
    RoutingInfo(
      raw.id, raw.priority % 0x1_0000, Lower(StarIfEmpty(raw.from)), StarIfEmpty(raw.source),
      StarIfEmpty(raw.destination),
      if pduType == "submit" then "1" else if pduType == "deliver" then "3"
      else if pduType == "delivery_report" then "2" else pduType,
      StarIfEmpty(raw.target))
  }

  /** A second normalisation changes nothing, and two senders that differ in case alone give one route. */
  lemma NormaliseSettles(raw: RoutingInfo, other: RoutingInfo)
    requires other == raw.(from := other.from) && Lower(raw.from) == Lower(other.from)
    ensures Normalise(Normalise(raw)) == Normalise(raw)
    ensures Normalise(other) == Normalise(raw)
  {
    var from := Normalise(raw).from;
    assert Lower(from) == from;
    assert raw.from == "" <==> other.from == "" by {
      assert |Lower(raw.from)| == |Lower(other.from)|;
    }
  }

  /** Whatever the other fields, a route for one kind of packets matches no other kind, and a route
      without a kind matches every packet that its other fields match. */
  lemma KindSelects(raw: RoutingInfo, record: seq<Word>, kind: Word)
    requires |record| == 4 && kind == Lower(kind) != ""
    ensures var r := Normalise(raw);
            var any := Normalise(raw.(pduType := ""));
            var accepts := match raw.pduType
                           case "submit" => kind == "1"
                           case "delivery_report" => kind == "2"
                           case "deliver" => kind == "3"
                           case _ => FieldMatches({r.pduType}, kind);
            RouteMatches(r, record[3 := kind]) <==> RouteMatches(any, record[3 := kind]) && accepts
  {
    var r, any, q := Normalise(raw), Normalise(raw.(pduType := "")), record[3 := kind];
    assert r.(pduType := "*") == any;
    StarAccepts(kind);
    if raw.pduType in {"submit", "delivery_report", "deliver"} {
      WholeWord(r.pduType, kind);
    }
    hide FieldMatches;
    FourFields(r, q);
    FourFields(any, q);
  }

  lemma FourFields(r: RoutingInfo, record: seq<Word>)
    requires |record| == 4
    ensures RouteMatches(r, record) <==> FieldMatches({r.from}, record[0]) && FieldMatches({r.source}, record[1]) &&
                                         FieldMatches({r.destination}, record[2]) && FieldMatches({r.pduType}, record[3])
  {
    hide FieldMatches;
    var rule := [{r.from}, {r.source}, {r.destination}, {r.pduType}];
    assert RouteMatches(r, record) <==> forall i :: 0 <= i < |rule| ==> FieldMatches(rule[i], record[i]);
    assert rule[0] == {r.from} && rule[1] == {r.source} && rule[2] == {r.destination} && rule[3] == {r.pduType};
  }

  /** The star accepts every field that is not empty. */
  lemma StarAccepts(query: Word)
    ensures FieldMatches({"*"}, query) <==> query != ""
  {
    assert PatternMatches("*", query) <==> query != "";
  }

  /** A pattern without a star at its end accepts itself alone. */
  lemma WholeWord(pattern: Word, query: Word)
    requires pattern != "" && pattern[|pattern| - 1] != '*'
    ensures FieldMatches({pattern}, query) <==> pattern == Lower(query)
  {
    assert PatternMatches(pattern, query) <==> pattern == Lower(query);
  }

  /** No pattern and no target is empty. */
  predicate RouteReady(r: RoutingInfo) {
    r.from != "" && r.source != "" && r.destination != "" && r.pduType != "" && r.target != ""
  }

  function GetList(r: RoutingInfo): seq<seq<Word>> {
    [[r.from], [r.source], [r.destination], [r.pduType]]
  }

  /** The route accepts a record: all four fields match. */
  ghost predicate RouteMatches(r: RoutingInfo, record: seq<Word>) {
    RuleMatches([{r.from}, {r.source}, {r.destination}, {r.pduType}], record)
  }

  /** A live route and the number the matcher knows it by. */
  datatype Live = Live(slot: nat, route: RoutingInfo)

  /** The target of the newest live route that matches. */
  ghost function LastTarget(live: seq<Live>, record: seq<Word>): string {
    if live == [] then ""
    else if RouteMatches(live[|live| - 1].route, record) then live[|live| - 1].route.target
    else LastTarget(live[..|live| - 1], record)
  }

  ghost function Without(live: seq<Live>, id: nat): seq<Live> {
    if live == [] then []
    else Without(live[..|live| - 1], id) + (if live[|live| - 1].route.id == id then [] else [live[|live| - 1]])
  }

  ghost predicate AllReady(live: seq<Live>) {
    forall x :: x in live ==> RouteReady(x.route)
  }

  /** The newest match decides, whatever the priorities say. */
  lemma {:induction false} NewestMatchDecides(live: seq<Live>, record: seq<Word>, j: nat)
    requires j < |live| && RouteMatches(live[j].route, record)
    requires forall l :: j < l < |live| ==> !RouteMatches(live[l].route, record)
    ensures LastTarget(live, record) == live[j].route.target
  {
    if j < |live| - 1 {
      NewestMatchDecides(live[..|live| - 1], record, j);
    }
  }

  /** The route that the priorities ask for: the oldest match of highest priority; -1 when none matches. */
  ghost function Favourite(live: seq<Live>, record: seq<Word>): int {
    if live == [] then -1
    else
      var w, x := Favourite(live[..|live| - 1], record), live[|live| - 1].route;
      if RouteMatches(x, record) && (0 <= w < |live| - 1 ==> x.priority > live[w].route.priority) then |live| - 1
      else w
  }

  lemma {:induction false} FavouriteIsHighest(live: seq<Live>, record: seq<Word>)
    ensures var w := Favourite(live, record);
            && -1 <= w < |live|
            && (w >= 0 ==> RouteMatches(live[w].route, record))
            && forall l :: 0 <= l < |live| && RouteMatches(live[l].route, record) ==>
                 w >= 0 && live[l].route.priority <= live[w].route.priority &&
                 (l < w ==> live[l].route.priority < live[w].route.priority)
  {
    hide RouteMatches;
    if live != [] {
      var init := live[..|live| - 1];
      FavouriteIsHighest(init, record);
      assert forall l :: 0 <= l < |init| ==> init[l] == live[l];
    }
  }

  /** Among routes to different targets, the answer respects the priorities exactly if the newest match has
      a higher priority than every other match. */
  lemma PrioritiesKeptIff(live: seq<Live>, record: seq<Word>, j: nat)
    requires j < |live| && RouteMatches(live[j].route, record)
    requires forall l :: j < l < |live| ==> !RouteMatches(live[l].route, record)
    requires forall l :: 0 <= l < j ==> live[l].route.target != live[j].route.target
    ensures var w := Favourite(live, record);
            && 0 <= w < |live|
            && (LastTarget(live, record) == live[w].route.target <==>
                forall l :: 0 <= l < j && RouteMatches(live[l].route, record) ==>
                  live[l].route.priority < live[j].route.priority)
  {
    hide RouteMatches, Favourite;
    NewestMatchDecides(live, record, j);
    FavouriteIsHighest(live, record);
  }

  /** Two routes for everything, the older one with the higher priority: the newer one answers. */
  lemma PriorityIgnored(record: seq<Word>)
    requires |record| == 4 && forall i :: 0 <= i < 4 ==> record[i] != ""
    ensures var urgent := RoutingInfo(1, 9, "*", "*", "*", "*", "urgent");
            var late := RoutingInfo(2, 1, "*", "*", "*", "*", "late");
            LastTarget([Live(0, urgent), Live(1, late)], record) == "late"
  {
    var urgent := RoutingInfo(1, 9, "*", "*", "*", "*", "urgent");
    var late := RoutingInfo(2, 1, "*", "*", "*", "*", "late");
    forall i | 0 <= i < 4 ensures FieldMatches({"*"}, record[i]) {
      StarAccepts(record[i]);
    }
    FourFields(late, record);
    NewestMatchDecides([Live(0, urgent), Live(1, late)], record, 1);
  }

  /** The answer is empty exactly when no live route matches. */
  lemma {:induction false} EmptyIffNoMatch(live: seq<Live>, record: seq<Word>)
    requires AllReady(live)
    ensures LastTarget(live, record) == "" <==>
            forall l :: 0 <= l < |live| ==> !RouteMatches(live[l].route, record)
    ensures LastTarget(live, record) != "" ==>
            exists l :: 0 <= l < |live| && RouteMatches(live[l].route, record) &&
                        LastTarget(live, record) == live[l].route.target
  {
    if live != [] {
      var init := live[..|live| - 1];
      EmptyIffNoMatch(init, record);
      if !RouteMatches(live[|live| - 1].route, record) && LastTarget(init, record) != "" {
        var l :| 0 <= l < |init| && RouteMatches(init[l].route, record) &&
                 LastTarget(init, record) == init[l].route.target;
        assert live[l] == init[l];
      }
    }
  }

  /** Removal keeps the other routes and their order. */
  lemma {:induction false} WithoutKeeps(live: seq<Live>, id: nat)
    ensures forall x :: x in Without(live, id) <==> x in live && x.route.id != id
    ensures (forall x :: x in live ==> x.route.id != id) ==> Without(live, id) == live
  {
    if live != [] {
      var init := live[..|live| - 1];
      WithoutKeeps(init, id);
      assert live == init + [live[|live| - 1]];
    }
  }

  ghost predicate Ordered(live: seq<Live>) {
    && (forall i, j :: 0 <= i < j < |live| ==> live[i].slot < live[j].slot)
    && (forall i, j :: 0 <= i < j < |live| ==> live[i].route.id != live[j].route.id)
  }

  /** The routes of one list come from the other. */
  ghost predicate Within(part: seq<Live>, live: seq<Live>) {
    forall i :: 0 <= i < |part| ==> part[i] in live
  }

  lemma {:induction false} WithoutOrdered(live: seq<Live>, id: nat)
    requires Ordered(live)
    ensures Ordered(Without(live, id)) && Within(Without(live, id), live)
  {
    if live != [] {
      var init, last := live[..|live| - 1], live[|live| - 1];
      assert live == init + [last];
      WithoutOrdered(init, id);
      LastIsNewest(init, last, Without(init, id));
    }
  }

  lemma LastIsNewest(init: seq<Live>, last: Live, part: seq<Live>)
    requires Ordered(init + [last]) && Within(part, init) && Ordered(part)
    ensures Ordered(part + [last])
  {
    forall i | 0 <= i < |part| ensures part[i].slot < last.slot && part[i].route.id != last.route.id {
      var j :| 0 <= j < |init| && init[j] == part[i];
      assert (init + [last])[j] == init[j] && (init + [last])[|init|] == last;
    }
  }

  /** Adding a route with a new id and removing it again is no change. */
  lemma AddThenRemove(live: seq<Live>, x: Live)
    requires forall l :: 0 <= l < |live| ==> live[l].route.id != x.route.id
    ensures Without(live + [x], x.route.id) == live
  {
    assert (live + [x])[..|live|] == live;
    WithoutKeeps(live, x.route.id);
  }

  /** Removing a route that does not match changes no answer. */
  lemma {:induction false} RemovalOfOthers(live: seq<Live>, id: nat, record: seq<Word>)
    requires forall l :: 0 <= l < |live| && live[l].route.id == id ==> !RouteMatches(live[l].route, record)
    ensures LastTarget(Without(live, id), record) == LastTarget(live, record)
  {
    if live != [] {
      var init := live[..|live| - 1];
      RemovalOfOthers(init, id, record);
      var w := Without(init, id);
      assert w + [] == w && (w + [live[|live| - 1]])[..|w|] == w;
    }
  }
}

/** The routing table with live addition and removal over the append-only matcher. */
module RoutingMatchers {
  import opened BitSets
  import opened Patterns
  import opened TrieMatchers
  import opened Rules
  import opened PrefixRuleMatchers
  import opened Routes
  import opened Sequences

  /** What the four arguments of a lookup become before they are matched. */
  function Record(from: Word, source: Word, destination: Word, pduType: Word, reverse: bool): seq<Word> {
    [Lower(from), source, if reverse then Reversed(destination) else destination, pduType]
  }

  /** `d` is the destination as the matcher reads it: forwards or backwards. */
  ghost predicate ReadAs(d: Word, destination: Word, backwards: bool) {
    && |d| == |destination|
    && (backwards ==> forall i :: 0 <= i < |d| ==> d[i] == destination[|d| - 1 - i])
    && (!backwards ==> d == destination)
  }

  /** A route serves a message: each of its four patterns accepts its own part. */
  ghost predicate Serves(r: RoutingInfo, from: Word, source: Word, destination: Word, pduType: Word, backwards: bool) {
    && FieldMatches({r.from}, from)
    && FieldMatches({r.source}, source)
    && (exists d :: ReadAs(d, destination, backwards) && FieldMatches({r.destination}, d))
    && FieldMatches({r.pduType}, pduType)
  }

  lemma OneReading(c: Word, d: Word, destination: Word, backwards: bool)
    requires ReadAs(c, destination, backwards) && ReadAs(d, destination, backwards)
    ensures c == d
  {
    assert backwards ==> forall i :: 0 <= i < |c| ==> c[i] == d[i];
  }

  lemma FoldedField(pattern: Word, query: Word)
    requires pattern != ""
    ensures FieldMatches({pattern}, Lower(query)) <==> FieldMatches({pattern}, query)
  {
    LowerTwice(query);
    assert PatternMatches(pattern, Lower(query)) <==> PatternMatches(pattern, query);
  }

  /** Matching the prepared record is serving the message. */
  lemma ServesIsMatch(r: RoutingInfo, from: Word, source: Word, destination: Word, pduType: Word, backwards: bool)
    requires RouteReady(r)
    ensures RouteMatches(r, Record(from, source, destination, pduType, backwards)) <==>
            Serves(r, from, source, destination, pduType, backwards)
  {
    var record := Record(from, source, destination, pduType, backwards);
    FourFields(r, record);
    FoldedField(r.from, from);
    hide FieldMatches, RouteMatches;
    assert ReadAs(record[2], destination, backwards);
    forall d | ReadAs(d, destination, backwards) ensures d == record[2] {
      OneReading(d, record[2], destination, backwards);
    }
  }

  ghost predicate NewestServes(live: seq<Live>, j: nat, from: Word, source: Word, destination: Word,
                               pduType: Word, backwards: bool)
    requires j < |live|
  {
    && Serves(live[j].route, from, source, destination, pduType, backwards)
    && forall l :: j < l < |live| ==> !Serves(live[l].route, from, source, destination, pduType, backwards)
  }

  /** The newest live route that serves a message gives the target, and without one there is none. */
  ghost predicate Answered(live: seq<Live>, from: Word, source: Word, destination: Word, pduType: Word,
                           backwards: bool, answer: string) {
    && (answer == "" <==>
        forall l :: 0 <= l < |live| ==> !Serves(live[l].route, from, source, destination, pduType, backwards))
    && forall j :: 0 <= j < |live| && NewestServes(live, j, from, source, destination, pduType, backwards) ==>
         answer == live[j].route.target
  }

  lemma LastTargetAnswers(live: seq<Live>, from: Word, source: Word, destination: Word, pduType: Word, backwards: bool)
    requires AllReady(live)
    ensures Answered(live, from, source, destination, pduType, backwards,
                     LastTarget(live, Record(from, source, destination, pduType, backwards)))
  {
    var record := Record(from, source, destination, pduType, backwards);
    hide RouteMatches, Serves, LastTarget;
    forall l | 0 <= l < |live|
      ensures RouteMatches(live[l].route, record) <==> Serves(live[l].route, from, source, destination, pduType, backwards)
    {
      assert live[l] in live;
      ServesIsMatch(live[l].route, from, source, destination, pduType, backwards);
    }
    EmptyIffNoMatch(live, record);
    forall j | 0 <= j < |live| && RouteMatches(live[j].route, record) &&
               (forall l :: j < l < |live| ==> !RouteMatches(live[l].route, record))
      ensures LastTarget(live, record) == live[j].route.target
    {
      NewestMatchDecides(live, record, j);
    }
  }

  /** What the matcher stores for a route. */
  ghost function StoredRoute(r: RoutingInfo): seq<set<Word>> {
    [{r.from}, {r.source}, {r.destination}, {r.pduType}]
  }

  /** A live route is known to both maps and its rule is stored. */
  ghost predicate Known(x: Live, mapping: map<nat, (string, nat)>, slots: map<nat, nat>, rules: seq<seq<set<Word>>>) {
    && x.slot in slots && slots[x.slot] == x.route.id
    && x.route.id in mapping && mapping[x.route.id] == (x.route.target, x.route.priority)
    && x.slot < |rules| && rules[x.slot] == StoredRoute(x.route)
  }

  lemma StoredIsRoute(r: RoutingInfo)
    requires RuleGood(GetList(r))
    ensures Stored(GetList(r)) == StoredRoute(r)
  {
    GoodStored(GetList(r));
    var l := GetList(r);
    assert (set p | p in l[0]) == {r.from} && (set p | p in l[1]) == {r.source};
    assert (set p | p in l[2]) == {r.destination} && (set p | p in l[3]) == {r.pduType};
  }

  /** The two id maps and the stored rules agree with the list of live routes. */
  ghost predicate Tables(live: seq<Live>, mapping: map<nat, (string, nat)>, slots: map<nat, nat>,
                         rules: seq<seq<set<Word>>>) {
    && AllReady(live)
    && Ordered(live)
    && (forall x :: x in live ==> Known(x, mapping, slots, rules))
    && (forall s :: s in slots ==> exists x :: x in live && x.slot == s)
    && (forall id :: id in mapping ==> exists x :: x in live && x.route.id == id)
  }

  /** The two maps are in bijection. */
  lemma TablesBiject(live: seq<Live>, mapping: map<nat, (string, nat)>, slots: map<nat, nat>,
                     rules: seq<seq<set<Word>>>)
    requires Tables(live, mapping, slots, rules)
    ensures forall s, t :: s in slots && t in slots && s != t ==> slots[s] != slots[t]
    ensures forall s :: s in slots ==> slots[s] in mapping && s < |rules|
    ensures forall id :: id in mapping ==> exists s :: s in slots && slots[s] == id
  {
    forall s, t | s in slots && t in slots && s != t ensures slots[s] != slots[t] {
      var x :| x in live && x.slot == s;
      var y :| y in live && y.slot == t;
      assert Known(x, mapping, slots, rules) && Known(y, mapping, slots, rules);
      var i :| 0 <= i < |live| && live[i] == x;
      var j :| 0 <= j < |live| && live[j] == y;
      assert i < j || j < i;
    }
  }

  /** A live route is told apart by its slot and by its id. */
  lemma SameLive(live: seq<Live>, x: Live, y: Live)
    requires Ordered(live) && x in live && y in live
    requires x.slot == y.slot || x.route.id == y.route.id
    ensures x == y
  {
    var i :| 0 <= i < |live| && live[i] == x;
    var j :| 0 <= j < |live| && live[j] == y;
    assert i < j || j < i || i == j;
  }

  /** A rule that could not be stored leaves the tables right. */
  lemma TablesAfterFailure(live: seq<Live>, mapping: map<nat, (string, nat)>, slots: map<nat, nat>,
                           rules: seq<seq<set<Word>>>, junk: seq<set<Word>>)
    requires Tables(live, mapping, slots, rules)
    ensures Tables(live, mapping, slots, rules + [junk])
  {
    forall x | x in live ensures Known(x, mapping, slots, rules + [junk]) {
      assert Known(x, mapping, slots, rules);
    }
  }

  lemma OrderedAppend(live: seq<Live>, x: Live)
    requires Ordered(live)
    requires forall y :: y in live ==> y.slot < x.slot && y.route.id != x.route.id
    ensures Ordered(live + [x])
  {
    assert forall i :: 0 <= i < |live| ==> live[i] in live;
  }

  lemma TablesAfterAdd(live: seq<Live>, mapping: map<nat, (string, nat)>, slots: map<nat, nat>,
                       rules: seq<seq<set<Word>>>, x: Live)
    requires Tables(live, mapping, slots, rules) && RouteReady(x.route)
    requires x.slot == |rules| && x.route.id !in mapping
    ensures Tables(live + [x], mapping[x.route.id := (x.route.target, x.route.priority)],
                   slots[x.slot := x.route.id], rules + [StoredRoute(x.route)])
  {
    hide Ordered, StoredRoute;
    var grown := live + [x];
    var mapping2 := mapping[x.route.id := (x.route.target, x.route.priority)];
    var slots2 := slots[x.slot := x.route.id];
    forall y | y in live ensures y.slot < x.slot && y.route.id != x.route.id {
      assert Known(y, mapping, slots, rules);
    }
    OrderedAppend(live, x);
    forall y | y in grown ensures Known(y, mapping2, slots2, rules + [StoredRoute(x.route)]) {
      if y in live {
        assert Known(y, mapping, slots, rules);
      }
    }
    assert x in grown;
    forall s | s in slots2 ensures exists y :: y in grown && y.slot == s {
      if s != x.slot {
        var y :| y in live && y.slot == s;
        assert y in grown;
      }
    }
    forall id | id in mapping2 ensures exists y :: y in grown && y.route.id == id {
      if id != x.route.id {
        var y :| y in live && y.route.id == id;
        assert y in grown;
      }
    }
  }

  /** An id without an entry belongs to no live route. */
  lemma NotThere(live: seq<Live>, mapping: map<nat, (string, nat)>, slots: map<nat, nat>,
                 rules: seq<seq<set<Word>>>, id: nat)
    requires Tables(live, mapping, slots, rules) && id !in mapping
    ensures Without(live, id) == live
  {
    forall x | x in live ensures x.route.id != id {
      assert Known(x, mapping, slots, rules);
    }
    WithoutKeeps(live, id);
  }

  lemma TablesAfterRemove(live: seq<Live>, mapping: map<nat, (string, nat)>, slots: map<nat, nat>,
                          rules: seq<seq<set<Word>>>, slot: nat, id: nat)
    requires Tables(live, mapping, slots, rules)
    requires slot in slots && slots[slot] == id
    ensures Tables(Without(live, id), mapping - {id}, slots - {slot}, rules)
  {
    hide Ordered, StoredRoute, Without;
    var rest := Without(live, id);
    WithoutKeeps(live, id);
    WithoutOrdered(live, id);
    var gone :| gone in live && gone.slot == slot;
    assert Known(gone, mapping, slots, rules);
    forall x | x in rest ensures Known(x, mapping - {id}, slots - {slot}, rules) && RouteReady(x.route) {
      assert Known(x, mapping, slots, rules);
      if x.slot == slot {
        SameLive(live, x, gone);
      }
    }
    forall s | s in slots - {slot} ensures exists x :: x in rest && x.slot == s {
      var x :| x in live && x.slot == s;
      if x.route.id == id {
        SameLive(live, x, gone);
      }
      assert x in rest;
    }
    forall other | other in mapping - {id} ensures exists x :: x in rest && x.route.id == other {
      var x :| x in live && x.route.id == other;
      assert x in rest;
    }
  }

  class RoutingMatcher {
    const matcher: PrefixRuleMatcher
    var reverseRouting: bool
    var ruleIdMapping: map<nat, (string, nat)>
    var prmIdToRuleId: map<nat, nat>

    ghost var live: seq<Live>  // oldest first

    ghost predicate Valid()
      reads this, matcher, matcher.Footprint()
    {
      && this !in matcher.Footprint()
      && matcher.Valid()
      && matcher.rulesCount == MAXIMUM_RULE_NUMBER && matcher.ruleParameterCount == ROUTING_FIELD_NUMBER
      && Tables(live, ruleIdMapping, prmIdToRuleId, matcher.rules)
    }

    constructor (reverse: bool)
      ensures Valid() && live == [] && reverseRouting == reverse && matcher.countOfSetRules == 0
    {
      hide PrefixRuleMatcher.Valid, TrieMatcher.Valid;
      reverseRouting := reverse;
      var m := new PrefixRuleMatcher(MAXIMUM_RULE_NUMBER, ROUTING_FIELD_NUMBER);
      matcher := m;
      ruleIdMapping, prmIdToRuleId, live := map[], map[], [];
    }

    /** Adds a route unless its id is taken or one of its patterns cannot be stored. */
    method AddRule(route: RoutingInfo) returns (ok: bool)
      requires Valid() && RouteReady(route)
      requires route.id !in ruleIdMapping ==> matcher.countOfSetRules < MAXIMUM_RULE_NUMBER
      modifies this, matcher, matcher.Footprint()
      ensures Valid()
      ensures ok <==> route.id !in old(ruleIdMapping) && RuleGood(GetList(route))
      ensures ok ==> live == old(live) + [Live(old(matcher.countOfSetRules), route)]
      ensures !ok ==> live == old(live) && ruleIdMapping == old(ruleIdMapping) && prmIdToRuleId == old(prmIdToRuleId)
      ensures reverseRouting == old(reverseRouting)
      ensures matcher.countOfSetRules == old(matcher.countOfSetRules) + if route.id in old(ruleIdMapping) then 0 else 1
    {
      hide PrefixRuleMatcher.Valid, TrieMatcher.Valid, RuleGood, Stored, Tables;
      if route.id in ruleIdMapping {
        return false;
      }
      var prmId: nat;
      ok, prmId := matcher.SetRule(GetList(route));
      if !ok {
        TablesAfterFailure(live, ruleIdMapping, prmIdToRuleId, old(matcher.rules), Stored(GetList(route)));
        assert this !in matcher.Footprint();
        return false;
      }
      StoredIsRoute(route);
      TablesAfterAdd(live, ruleIdMapping, prmIdToRuleId, old(matcher.rules), Live(prmId, route));
      prmIdToRuleId := prmIdToRuleId[prmId := route.id];
      ruleIdMapping := ruleIdMapping[route.id := (route.target, route.priority)];
      live := live + [Live(prmId, route)];
      assert this !in matcher.Footprint();
    }

    /** Removes the route with this id. */
    method RemoveRule(ruleId: nat) returns (ok: bool)
      requires Valid()
      modifies this
      ensures Valid()
      ensures ok <==> ruleId in old(ruleIdMapping)
      ensures live == Without(old(live), ruleId) && reverseRouting == old(reverseRouting)
    {
      hide PrefixRuleMatcher.Valid, TrieMatcher.Valid, Tables;
      if ruleId !in ruleIdMapping {
        NotThere(live, ruleIdMapping, prmIdToRuleId, matcher.rules, ruleId);
        return false;
      }
      TablesBiject(live, ruleIdMapping, prmIdToRuleId, matcher.rules);
      ruleIdMapping := ruleIdMapping - {ruleId};
      ghost var slot :| slot in prmIdToRuleId && prmIdToRuleId[slot] == ruleId;
      var it := 0;
      while !(it in prmIdToRuleId && prmIdToRuleId[it] == ruleId)
        invariant it <= slot
        decreases slot - it
      {
        it := it + 1;
      }
      prmIdToRuleId := prmIdToRuleId - {it};
      TablesAfterRemove(live, old(ruleIdMapping), old(prmIdToRuleId), matcher.rules, it, ruleId);
      live := Without(live, ruleId);
      ok := true;
    }

    /** Every part of the message can be read. */
    ghost predicate Readable(from: Word, source: Word, destination: Word, pduType: Word)
      reads this, matcher, matcher.trie
    {
      && matcher.trie.Accepts(from) && matcher.trie.Accepts(source) && matcher.trie.Accepts(pduType)
      && forall d :: ReadAs(d, destination, reverseRouting) ==> matcher.trie.Accepts(d)
    }

    lemma ReadableRecord(from: Word, source: Word, destination: Word, pduType: Word)
      ensures var record := Record(from, source, destination, pduType, reverseRouting);
              Readable(from, source, destination, pduType) <==>
              forall i :: 0 <= i < |record| ==> matcher.trie.Accepts(record[i])
    {
      var record := Record(from, source, destination, pduType, reverseRouting);
      LowerTwice(from);
      assert matcher.trie.Accepts(Lower(from)) <==> matcher.trie.Accepts(from);
      assert ReadAs(record[2], destination, reverseRouting);
      forall d | ReadAs(d, destination, reverseRouting) ensures d == record[2] {
        OneReading(d, record[2], destination, reverseRouting);
      }
      hide TrieMatcher.Accepts;
      assert |record| == 4 && record[0] == Lower(from) && record[1] == source && record[3] == pduType;
    }

    /** The target for a message: that of the newest live route whose four fields match. */
    method FindTarget(from: Word, source: Word, destination: Word, pduType: Word)
      returns (ok: bool, matched: string)
      requires Valid()
      ensures Valid()
      ensures ok ==> Answered(live, from, source, destination, pduType, reverseRouting, matched)
      ensures ok <==> Readable(from, source, destination, pduType)
      ensures ok ==> matched == LastTarget(live, Record(from, source, destination, pduType, reverseRouting))
      ensures var record := Record(from, source, destination, pduType, reverseRouting);
              ok <==> forall i :: 0 <= i < |record| ==> matcher.trie.Accepts(record[i])
      ensures var record := Record(from, source, destination, pduType, reverseRouting);
              (forall i :: 0 <= i < |record| ==> ValidWord(Lower(record[i]))) ==> ok
    {
      hide PrefixRuleMatcher.Valid, TrieMatcher.Valid, Tables, Serves, Answered, RoutingMatcher.Readable;
      ReadableRecord(from, source, destination, pduType);
      LiveReady(live, ruleIdMapping, prmIdToRuleId, matcher.rules);
      LastTargetAnswers(live, from, source, destination, pduType, reverseRouting);
      var data := Record(from, source, destination, pduType, reverseRouting);
      matched := "";
      var matchList: seq<nat>;
      ok, matchList := matcher.Match(data);
      if !ok {
        return;
      }
      var targetMatchList: seq<(string, nat)> := [];
      for i := 0 to |matchList|
        invariant Candidates(live, matchList[..i], targetMatchList)
      {
        CandidatesStep(live, ruleIdMapping, prmIdToRuleId, matcher.rules, matchList, i, targetMatchList);
        var prmRuleId := matchList[i];
        if prmRuleId in prmIdToRuleId {
          var ruleId := prmIdToRuleId[prmRuleId];
          if ruleId in ruleIdMapping {
            targetMatchList := targetMatchList + [ruleIdMapping[ruleId]];
          }
        }
      }
      assert matchList[..|matchList|] == matchList;
      var priority: int := -1;
      for i := 0 to |targetMatchList|
        invariant matched == if i == 0 then "" else targetMatchList[i - 1].0
      {
        if targetMatchList[i].1 > priority {
          matched := targetMatchList[i].0;
        }
      }
      LastCandidate(live, ruleIdMapping, prmIdToRuleId, matcher.rules, data, matchList, targetMatchList);
    }
  }

  lemma LiveReady(live: seq<Live>, mapping: map<nat, (string, nat)>, slots: map<nat, nat>,
                  rules: seq<seq<set<Word>>>)
    requires Tables(live, mapping, slots, rules)
    ensures AllReady(live)
  {}

  /** The last target collected is that of the newest live route among the numbers seen. */
  ghost predicate Candidates(live: seq<Live>, seen: seq<nat>, targets: seq<(string, nat)>) {
    && (targets == [] ==> forall l :: 0 <= l < |live| ==> live[l].slot !in seen)
    && (targets != [] ==> exists j :: NewestSeen(live, seen, j) && targets[|targets| - 1].0 == live[j].route.target)
  }

  ghost predicate NewestSeen(live: seq<Live>, seen: seq<nat>, j: int) {
    0 <= j < |live| && live[j].slot in seen && forall l :: j < l < |live| ==> live[l].slot !in seen
  }

  lemma NewestOfAscending(live: seq<Live>, matchList: seq<nat>, i: nat, j: nat)
    requires Ordered(live) && Ascending(matchList) && i < |matchList| && j < |live|
    requires live[j].slot == matchList[i]
    ensures NewestSeen(live, matchList[..i + 1], j)
  {
    var seen, top := matchList[..i + 1], matchList[i];
    assert seen[i] == top;
    forall s | s in seen ensures s <= top {
      var l :| 0 <= l < |seen| && seen[l] == s;
      assert l < i || l == i;
    }
  }

  lemma CandidatesStep(live: seq<Live>, mapping: map<nat, (string, nat)>, slots: map<nat, nat>,
                       rules: seq<seq<set<Word>>>, matchList: seq<nat>, i: nat, targets: seq<(string, nat)>)
    requires Tables(live, mapping, slots, rules) && i < |matchList| && Ascending(matchList)
    requires Candidates(live, matchList[..i], targets)
    ensures var s := matchList[i];
            if s in slots then slots[s] in mapping &&
                               Candidates(live, matchList[..i + 1], targets + [mapping[slots[s]]])
            else Candidates(live, matchList[..i + 1], targets)
  {
    hide Ordered, Ascending, NewestSeen;
    var s := matchList[i];
    if s in slots {
      var j := LiveAt(live, mapping, slots, rules, s);
      NewestOfAscending(live, matchList, i, j);
    } else {
      NobodyAt(live, mapping, slots, rules, s);
      StaleNumber(live, matchList, i, targets);
    }
  }

  /** Behind every number that is mapped stands a live route. */
  lemma LiveAt(live: seq<Live>, mapping: map<nat, (string, nat)>, slots: map<nat, nat>,
               rules: seq<seq<set<Word>>>, s: nat) returns (j: nat)
    requires Tables(live, mapping, slots, rules) && s in slots
    ensures j < |live| && live[j].slot == s && slots[s] in mapping && mapping[slots[s]].0 == live[j].route.target
  {
    hide Ordered, StoredRoute;
    var x :| x in live && x.slot == s;
    assert Known(x, mapping, slots, rules);
    j :| 0 <= j < |live| && live[j] == x;
  }

  lemma NobodyAt(live: seq<Live>, mapping: map<nat, (string, nat)>, slots: map<nat, nat>,
                 rules: seq<seq<set<Word>>>, s: nat)
    requires Tables(live, mapping, slots, rules) && s !in slots
    ensures forall l :: 0 <= l < |live| ==> live[l].slot != s
  {
    hide Ordered, StoredRoute;
    forall l | 0 <= l < |live| ensures live[l].slot != s {
      assert live[l] in live && Known(live[l], mapping, slots, rules);
    }
  }

  /** A number without a live route changes nothing. */
  lemma StaleNumber(live: seq<Live>, matchList: seq<nat>, i: nat, targets: seq<(string, nat)>)
    requires i < |matchList| && Candidates(live, matchList[..i], targets)
    requires forall l :: 0 <= l < |live| ==> live[l].slot != matchList[i]
    ensures Candidates(live, matchList[..i + 1], targets)
  {
    assert matchList[..i + 1] == matchList[..i] + [matchList[i]];
    if targets != [] {
      var j :| NewestSeen(live, matchList[..i], j) && targets[|targets| - 1].0 == live[j].route.target;
      assert NewestSeen(live, matchList[..i + 1], j);
    }
  }

  lemma LastCandidate(live: seq<Live>, mapping: map<nat, (string, nat)>, slots: map<nat, nat>,
                      rules: seq<seq<set<Word>>>, record: seq<Word>, matchList: seq<nat>,
                      targets: seq<(string, nat)>)
    requires Tables(live, mapping, slots, rules) && Candidates(live, matchList, targets)
    requires forall r: nat :: r in matchList <==> r < |rules| && RuleMatches(rules[r], record)
    ensures LastTarget(live, record) == if targets == [] then "" else targets[|targets| - 1].0
  {
    hide RuleMatches;
    forall l | 0 <= l < |live| ensures live[l].slot in matchList <==> RouteMatches(live[l].route, record) {
      assert live[l] in live && Known(live[l], mapping, slots, rules);
    }
    if targets == [] {
      EmptyIffNoMatch(live, record);
    } else {
      var j :| NewestSeen(live, matchList, j) && targets[|targets| - 1].0 == live[j].route.target;
      NewestMatchDecides(live, record, j);
    }
  }
}
