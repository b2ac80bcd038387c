/** The numbering of (rule, field) pairs, and what a rule means for a record. */
module Rules {
  import opened Patterns

  /** The tag of field `i` of rule `r`, for rules of `k` fields. */
  function Tag(r: nat, i: nat, k: nat): nat { r * k + i }

  lemma {:induction false} MulGap(a: int, b: int, k: nat)
    requires a < b
    ensures a * k + k <= b * k
    decreases b - a
  {
    assert b * k == (b - 1) * k + k;
    if a < b - 1 {
      MulGap(a, b - 1, k);
    }
  }

  lemma TagBelow(r: nat, i: nat, k: nat, n: nat)
    requires i < k && r < n
    ensures Tag(r, i, k) < n * k
  {
    MulGap(r, n, k);
  }

  /** Every tag belongs to one field of one rule. */
  lemma TagUnique(r: nat, i: nat, s: nat, j: nat, k: nat)
    requires i < k && j < k && Tag(r, i, k) == Tag(s, j, k)
    ensures r == s && i == j
  {
    if r < s {
      MulGap(r, s, k);
    } else if s < r {
      MulGap(s, r, k);
    }
  }

  /** The bit that a fully matched rule leaves behind. */
  function LastBit(r: nat, k: nat): nat
    requires k > 0
  {
    MulGap(0, r + 1, k);
    (r + 1) * k - 1
  }

  /** It is the tag of the last field, and the rule number can be read back from it. */
  lemma LastTag(r: nat, k: nat)
    requires k > 0
    ensures LastBit(r, k) == Tag(r, k - 1, k)
    ensures (LastBit(r, k) + 1) / k - 1 == r
  {
    DivideBack(r + 1, k);
  }

  lemma LastBitOrder(r: nat, s: nat, k: nat)
    requires k > 0 && LastBit(r, k) < LastBit(s, k)
    ensures r < s
  {
    if s < r {
      MulGap(s + 1, r + 1, k);
    }
  }

  lemma DivideBack(n: nat, k: nat)
    requires k > 0
    ensures (n * k) / k == n
  {
    var q := (n * k) / k;
    if q < n {
      MulGap(q, n, k);
    } else if q > n {
      MulGap(n, q, k);
    }
  }

  /** One field of a rule accepts one field of a record. */
  ghost predicate FieldMatches(patterns: set<Word>, query: Word) {
    exists p :: p in patterns && p != "" && PatternMatches(p, query)
  }

  /** A rule matches a record when every field does. */
  ghost predicate RuleMatches(rule: seq<set<Word>>, record: seq<Word>) {
    |rule| == |record| && forall i :: 0 <= i < |rule| ==> FieldMatches(rule[i], record[i])
  }

  ghost predicate FieldGood(field: seq<Word>) {
    forall j :: 0 <= j < |field| ==> ValidWord(field[j])
  }

  /** The pattern at `j` and all before it can be stored. */
  ghost predicate GoodThrough(field: seq<Word>, j: nat) {
    forall l :: 0 <= l <= j && l < |field| ==> ValidWord(field[l])
  }

  /** The patterns among the first `n` of a field that come before any bad one. */
  ghost function GoodRun(field: seq<Word>, n: nat): set<Word> {
    set j | 0 <= j < |field| && j < n && GoodThrough(field, j) :: field[j]
  }

  /** What a rule leaves in the matcher: all of it, or everything before the first bad pattern. */
  ghost function Stored(rule: seq<seq<Word>>): seq<set<Word>> {
    seq(|rule|, i requires 0 <= i < |rule| =>
      if forall l :: 0 <= l < i ==> FieldGood(rule[l]) then GoodRun(rule[i], |rule[i]|) else {})
  }

  ghost predicate RuleGood(rule: seq<seq<Word>>) {
    forall i :: 0 <= i < |rule| ==> FieldGood(rule[i])
  }

  /** A good rule is stored whole. */
  lemma GoodStored(rule: seq<seq<Word>>)
    requires RuleGood(rule)
    ensures |Stored(rule)| == |rule|
    ensures forall i :: 0 <= i < |rule| ==> Stored(rule)[i] == set p | p in rule[i]
  {
    forall i | 0 <= i < |rule| ensures Stored(rule)[i] == set p | p in rule[i] {
      forall p | p in rule[i] ensures p in GoodRun(rule[i], |rule[i]|) {
        var j :| 0 <= j < |rule[i]| && rule[i][j] == p;
        assert GoodThrough(rule[i], j);
      }
    }
  }

  /** A rule whose first bad pattern is the one at `j` of field `i` leaves the patterns before it. */
  lemma BadStored(rule: seq<seq<Word>>, i: nat, j: nat)
    requires i < |rule| && j < |rule[i]| && !ValidWord(rule[i][j])
    requires forall l :: 0 <= l < j ==> ValidWord(rule[i][l])
    requires forall k, l :: 0 <= k < i && 0 <= l < |rule[k]| ==> ValidWord(rule[k][l])
    ensures |Stored(rule)| == |rule|
    ensures forall k :: 0 <= k < i ==> Stored(rule)[k] == set p | p in rule[k]
    ensures Stored(rule)[i] == set p | p in rule[i][..j]
    ensures forall k :: i < k < |rule| ==> Stored(rule)[k] == {}
  {
    hide ValidWord;
    forall k | 0 <= k < i ensures Stored(rule)[k] == set p | p in rule[k] {
      GoodRunWhole(rule[k]);
    }
    GoodRunUntil(rule[i], j);
    assert !FieldGood(rule[i]);
  }

  lemma GoodRunWhole(field: seq<Word>)
    requires FieldGood(field)
    ensures GoodRun(field, |field|) == set p | p in field
  {
    forall p | p in field ensures p in GoodRun(field, |field|) {
      var l :| 0 <= l < |field| && field[l] == p;
      assert GoodThrough(field, l);
    }
  }

  lemma GoodRunUntil(field: seq<Word>, j: nat)
    requires j < |field| && !ValidWord(field[j]) && forall l :: 0 <= l < j ==> ValidWord(field[l])
    ensures GoodRun(field, |field|) == set p | p in field[..j]
  {
    hide ValidWord;
    forall p | p in field[..j] ensures p in GoodRun(field, |field|) {
      var l :| 0 <= l < j && field[l] == p;
      assert GoodThrough(field, l);
    }
    forall p | p in GoodRun(field, |field|) ensures p in field[..j] {
      var l :| 0 <= l < |field| && GoodThrough(field, l) && field[l] == p;
      assert field[..j][l] == p;
    }
  }

  lemma GoodRunStarts(field: seq<Word>)
    ensures GoodRun(field, 0) == {}
  {}

  /** A bad pattern at `j` of field `i`: what was stored by then is what the rule leaves. */
  lemma StoredUntil(rule: seq<seq<Word>>, stored: seq<set<Word>>, i: nat, j: nat)
    requires |stored| == |rule| && i < |rule| && j < |rule[i]| && !ValidWord(rule[i][j])
    requires forall l :: 0 <= l < i ==> FieldGood(rule[l]) && stored[l] == GoodRun(rule[l], |rule[l]|)
    requires stored[i] == GoodRun(rule[i], |rule[i]|)
    requires forall l :: i < l < |stored| ==> stored[l] == {}
    ensures stored == Stored(rule) && !RuleGood(rule)
  {
    hide GoodRun;
    assert !FieldGood(rule[i]);
  }

  lemma StoredWhole(rule: seq<seq<Word>>, stored: seq<set<Word>>)
    requires |stored| == |rule|
    requires forall l :: 0 <= l < |rule| ==> FieldGood(rule[l]) && stored[l] == GoodRun(rule[l], |rule[l]|)
    ensures stored == Stored(rule) && RuleGood(rule)
  {
    hide GoodRun;
  }

  /** Storing one pattern more, or meeting the first bad one. */
  lemma GoodRunStep(field: seq<Word>, j: nat)
    requires j < |field| && forall l :: 0 <= l < j ==> ValidWord(field[l])
    ensures ValidWord(field[j]) ==> GoodRun(field, j + 1) == GoodRun(field, j) + {field[j]}
    ensures !ValidWord(field[j]) ==> GoodRun(field, |field|) == GoodRun(field, j)
  {
    if ValidWord(field[j]) {
      assert GoodThrough(field, j);
    } else {
      assert forall l :: j <= l < |field| ==> !GoodThrough(field, l);
    }
  }
}

/** Every rule tested on every field at once, by shifting and masking sets of (rule, field) tags. */
module PrefixRuleMatchers {
  import opened BitSets
  import opened Patterns
  import opened TrieMatchers
  import opened Rules

  /** After field `i` of the shift-and loop, bit `p` says that the tags up to `p` match the fields up to `i`. */
  ghost predicate MatchedSoFar(entries: set<Entry>, record: seq<Word>, i: nat, p: nat)
    requires i < |record|
  {
    p >= i && forall j :: 0 <= j <= i ==> Answers(entries, record[j], p - i + j)
  }

  /** The entries of every stored rule are those of its patterns, and no other tag has entries. */
  ghost predicate RulesTell(entries: set<Entry>, rules: seq<seq<set<Word>>>, k: nat) {
    && (forall r :: 0 <= r < |rules| ==> |rules[r]| == k)
    && (forall e :: e in entries ==> e.tag < |rules| * k)
    && (forall r, i :: 0 <= r < |rules| && 0 <= i < k ==> EntriesOf(entries, rules[r][i], Tag(r, i, k)))
  }

  lemma FirstField(entries: set<Entry>, record: seq<Word>)
    requires |record| > 0
    ensures forall p: nat :: MatchedSoFar(entries, record, 0, p) <==> Answers(entries, record[0], p)
  {
    hide Answers;
    forall p: nat ensures MatchedSoFar(entries, record, 0, p) <==> Answers(entries, record[0], p) {
      if MatchedSoFar(entries, record, 0, p) {
        assert Answers(entries, record[0], p - 0 + 0);
      }
    }
  }

  /** One shift-and step keeps the meaning of the bits. */
  lemma ShiftAndStep(entries: set<Entry>, record: seq<Word>, i: nat, p: nat)
    requires 0 < i < |record|
    ensures MatchedSoFar(entries, record, i, p) <==>
            p > 0 && MatchedSoFar(entries, record, i - 1, p - 1) && Answers(entries, record[i], p)
  {
    if p > 0 && MatchedSoFar(entries, record, i - 1, p - 1) && Answers(entries, record[i], p) {
      forall j | 0 <= j <= i ensures Answers(entries, record[j], p - i + j) {
        if j < i {
          assert Answers(entries, record[j], (p - 1) - (i - 1) + j);
        }
      }
    }
    if MatchedSoFar(entries, record, i, p) {
      forall j | 0 <= j <= i - 1 ensures Answers(entries, record[j], (p - 1) - (i - 1) + j) {
        assert Answers(entries, record[j], p - i + j);
      }
      assert Answers(entries, record[i], p - i + i);
    }
  }

  /** A bit at the last tag of a rule after the last field means that the rule matches: bits that
      started in a neighbouring rule stand elsewhere. */
  lemma MaskedBitIsRule(entries: set<Entry>, rules: seq<seq<set<Word>>>, k: nat, record: seq<Word>, r: nat)
    requires k > 0 && |record| == k && RulesTell(entries, rules, k)
    ensures MatchedSoFar(entries, record, k - 1, LastBit(r, k)) <==>
            r < |rules| && RuleMatches(rules[r], record)
  {
    hide Answers, EntriesOf, FieldMatches;
    LastTag(r, k);
    var p := LastBit(r, k);
    assert forall j :: 0 <= j <= k - 1 ==> p - (k - 1) + j == Tag(r, j, k);
    if r < |rules| {
      forall j | 0 <= j < k
        ensures Answers(entries, record[j], p - (k - 1) + j) <==> FieldMatches(rules[r][j], record[j])
      {
        FieldAnswers(entries, rules[r][j], record[j], Tag(r, j, k));
      }
    } else {
      if |rules| < r {
        MulGap(|rules|, r, k);
      }
      AnswerHasEntry(entries, record[0], Tag(r, 0, k));
      assert !Answers(entries, record[0], p - (k - 1) + 0);
    }
  }

  lemma FieldAnswers(entries: set<Entry>, patterns: set<Word>, query: Word, tag: nat)
    requires EntriesOf(entries, patterns, tag)
    ensures Answers(entries, query, tag) <==> FieldMatches(patterns, query)
  {
    AnswersArePatterns(entries, patterns, query, tag);
  }

  lemma AnswerHasEntry(entries: set<Entry>, query: Word, tag: nat)
    ensures Answers(entries, query, tag) ==> exists e :: e in entries && e.tag == tag
  {
    var q := Lower(query);
    if Answers(entries, query, tag) {
      if q == "*" {
        assert Entry("", Prefix, tag) in entries;
      } else if q == "" {
        assert Entry("", Complete, tag) in entries;
      } else if PrefixHit(entries, q, 0, tag) {
        var k :| 0 <= k <= |q| && Entry(q[..k], Prefix, tag) in entries;
      } else {
        assert Entry(q, Complete, tag) in entries;
      }
    }
  }

  /** A new rule without patterns. */
  lemma RulesGrow(entries: set<Entry>, rules: seq<seq<set<Word>>>, k: nat, blank: seq<set<Word>>)
    requires RulesTell(entries, rules, k)
    requires |blank| == k && forall i :: 0 <= i < k ==> blank[i] == {}
    ensures RulesTell(entries, rules + [blank], k)
  {
    var grown := rules + [blank];
    assert |grown| * k == |rules| * k + k;
    forall r, i | 0 <= r < |grown| && 0 <= i < k ensures EntriesOf(entries, grown[r][i], Tag(r, i, k)) {
      if r == |rules| {
        forall e | e in entries ensures e.tag != Tag(r, i, k) {}
      } else {
        assert grown[r] == rules[r];
      }
    }
  }

  /** The rules with one more pattern for field `i` of the newest one. */
  ghost function Learned(rules: seq<seq<set<Word>>>, i: nat, p: Word): seq<seq<set<Word>>> {
    var r := |rules| - 1;
    if r >= 0 && i < |rules[r]| then rules[r := rules[r][i := rules[r][i] + {p}]] else rules
  }

  /** One more pattern for field `i` of the newest rule. */
  lemma RulesLearn(entries: set<Entry>, rules: seq<seq<set<Word>>>, k: nat, i: nat, p: Word)
    requires RulesTell(entries, rules, k) && |rules| > 0 && i < k && p != ""
    ensures RulesTell(entries + {EntryOf(p, Tag(|rules| - 1, i, k))}, Learned(rules, i, p), k)
    ensures |Learned(rules, i, p)| == |rules|
  {
    var r := |rules| - 1;
    var e := EntryOf(p, Tag(r, i, k));
    var learned := Learned(rules, i, p);
    hide EntriesOf;
    TagBelow(r, i, k, |rules|);
    forall s, j | 0 <= s < |learned| && 0 <= j < k
      ensures EntriesOf(entries + {e}, learned[s][j], Tag(s, j, k))
    {
      assert EntriesOf(entries, rules[s][j], Tag(s, j, k));
      if Tag(s, j, k) == Tag(r, i, k) {
        TagUnique(s, j, r, i, k);
        OneMorePattern(entries, rules[s][j], Tag(s, j, k), p);
      } else {
        OtherPatternsStay(entries, rules[s][j], Tag(s, j, k), e);
      }
    }
  }

  lemma OneMorePattern(entries: set<Entry>, patterns: set<Word>, tag: nat, p: Word)
    requires EntriesOf(entries, patterns, tag) && p != ""
    ensures EntriesOf(entries + {EntryOf(p, tag)}, patterns + {p}, tag)
  {
    assert PatternOf(EntryOf(p, tag)) == p;
  }

  lemma OtherPatternsStay(entries: set<Entry>, patterns: set<Word>, tag: nat, e: Entry)
    requires EntriesOf(entries, patterns, tag) && e.tag != tag
    ensures EntriesOf(entries + {e}, patterns, tag)
  {}

  /** The mask holds the last bit of every rule. */
  ghost predicate MaskOf(mask: BitSet, n: nat, k: nat)
    requires k > 0
    reads mask.storage
  {
    forall p: nat :: mask.Has(p) <==> exists r: nat :: r < n && p == LastBit(r, k)
  }

  method BuildMask(n: nat, k: nat) returns (mask: BitSet)
    requires k > 0
    ensures fresh(mask) && fresh(mask.storage) && mask.Valid() && mask.size == n * k && MaskOf(mask, n, k)
  {
    hide BitSet.Has;
    mask := new BitSet(n * k);
    for i := 0 to n
      invariant fresh(mask) && fresh(mask.storage) && mask.Valid() && mask.size == n * k && MaskOf(mask, i, k)
    {
      TagBelow(i, k - 1, k, n);
      LastTag(i, k);
      mask.Set((i + 1) * k - 1);
    }
  }

  class PrefixRuleMatcher {
    const ruleParameterCount: nat
    const rulesCount: nat
    const trie: TrieMatcher
    const matchMask: BitSet
    var countOfSetRules: nat

    ghost var rules: seq<seq<set<Word>>>  // per rule number and field, the patterns stored

    ghost function Footprint(): set<object>
      reads this, trie
    {
      {this, trie, matchMask.storage} + trie.heap
    }

    ghost predicate Valid()
      reads Footprint()
    {
      && ruleParameterCount > 0
      && trie.Valid() && trie.categoryCount == rulesCount * ruleParameterCount
      && matchMask.Valid() && matchMask.size == rulesCount * ruleParameterCount
      && matchMask.storage !in trie.heap && this !in trie.heap
      && MaskOf(matchMask, rulesCount, ruleParameterCount)
      && |rules| == countOfSetRules <= rulesCount
      && RulesTell(trie.entries, rules, ruleParameterCount)
    }

    constructor (rulesCount: nat, ruleParameterCount: nat)
      requires rulesCount > 0 && ruleParameterCount > 0
      ensures Valid() && fresh(Footprint())
      ensures this.rulesCount == rulesCount && this.ruleParameterCount == ruleParameterCount
      ensures rules == [] && countOfSetRules == 0
    {
      hide TrieMatcher.Valid, MaskOf;
      this.rulesCount, this.ruleParameterCount := rulesCount, ruleParameterCount;
      countOfSetRules := 0;
      rules := [];
      var t := new TrieMatcher(rulesCount * ruleParameterCount);
      trie := t;
      var mask := BuildMask(rulesCount, ruleParameterCount);
      matchMask := mask;
    }

    /** Stores one pattern of the newest rule. */
    method LearnPattern(i: nat, p: Word) returns (ok: bool)
      requires Valid() && countOfSetRules > 0 && i < ruleParameterCount && p != ""
      modifies this`rules, trie, trie.heap
      ensures Valid() && fresh(trie.heap - old(trie.heap))
      ensures ok <==> ValidWord(p)
      ensures rules == if ok then Learned(old(rules), i, p) else old(rules)
    {
      hide TrieMatcher.Valid, MaskOf, RulesTell, Learned;
      ghost var r := |rules| - 1;
      TagBelow(r, i, ruleParameterCount, rulesCount);
      ok := trie.AddEntry(p, (countOfSetRules - 1) * ruleParameterCount + i);
      if ok {
        RulesLearn(old(trie.entries), rules, ruleParameterCount, i, p);
        rules := Learned(rules, i, p);
      }
    }

    /** Takes the next rule number and stores the patterns field by field. A pattern that cannot be
        stored stops it: the number is spent and the patterns before it stay. */
    method SetRule(rule: seq<seq<Word>>) returns (ok: bool, ruleId: nat)
      requires Valid() && countOfSetRules < rulesCount && |rule| == ruleParameterCount
      requires forall i, j :: 0 <= i < |rule| && 0 <= j < |rule[i]| ==> rule[i][j] != ""
      modifies this, trie, trie.heap
      ensures Valid() && fresh(trie.heap - old(trie.heap))
      ensures ruleId == old(countOfSetRules) == |old(rules)| && countOfSetRules == ruleId + 1
      ensures ok <==> RuleGood(rule)
      ensures rules == old(rules) + [Stored(rule)]
    {
      hide TrieMatcher.Valid, MaskOf, RulesTell, Stored, GoodRun, RuleGood, ValidWord;
      ruleId := countOfSetRules;
      countOfSetRules := countOfSetRules + 1;
      ghost var stored: seq<set<Word>> := seq(ruleParameterCount, _ => {});
      RulesGrow(trie.entries, rules, ruleParameterCount, stored);
      rules := rules + [stored];
      for i := 0 to ruleParameterCount
        invariant Valid() && fresh(trie.heap - old(trie.heap))
        invariant countOfSetRules == ruleId + 1 && rules == old(rules) + [stored]
        invariant |stored| == ruleParameterCount
        invariant forall l :: 0 <= l < i ==> FieldGood(rule[l]) && stored[l] == GoodRun(rule[l], |rule[l]|)
        invariant forall l :: i <= l < |stored| ==> stored[l] == {}
      {
        GoodRunStarts(rule[i]);
        for j := 0 to |rule[i]|
          invariant Valid() && fresh(trie.heap - old(trie.heap))
          invariant countOfSetRules == ruleId + 1 && rules == old(rules) + [stored]
          invariant |stored| == ruleParameterCount
          invariant forall l :: 0 <= l < i ==> FieldGood(rule[l]) && stored[l] == GoodRun(rule[l], |rule[l]|)
          invariant forall l :: 0 <= l < j ==> ValidWord(rule[i][l])
          invariant stored[i] == GoodRun(rule[i], j)
          invariant forall l :: i < l < |stored| ==> stored[l] == {}
        {
          GoodRunStep(rule[i], j);
          var lower := HasNoUpper(rule[i][j]);
          if !lower {
            StoredUntil(rule, stored, i, j);
            return false, ruleId;
          }
          ok := LearnPattern(i, rule[i][j]);
          if !ok {
            StoredUntil(rule, stored, i, j);
            return false, ruleId;
          }
          stored := stored[i := stored[i] + {rule[i][j]}];
        }
      }
      StoredWhole(rule, stored);
      ok := true;
    }

    /** The shift-and loop. An unreadable field is an error. */
    method MatchGetBitset(record: seq<Word>) returns (ok: bool, result: BitSet)
      requires Valid() && |record| == ruleParameterCount && rulesCount > 0
      ensures Valid()
      ensures ok <==> forall i :: 0 <= i < |record| ==> trie.Accepts(record[i])
      ensures (forall i :: 0 <= i < |record| ==> ValidWord(Lower(record[i]))) ==> ok
      ensures fresh(result) && fresh(result.storage)
      ensures ok ==> forall p: nat :: result.Has(p) <==>
                MatchedSoFar(trie.entries, record, |record| - 1, p) && matchMask.Has(p)
    {
      hide TrieMatcher.Valid, TrieMatcher.Accepts, MaskOf, RulesTell, BitSet.Has, MatchedSoFar;
      TagBelow(0, 0, ruleParameterCount, rulesCount);
      ok, result := trie.Match(record[0]);
      if !ok {
        return;
      }
      FirstField(trie.entries, record);
      for i := 1 to ruleParameterCount
        invariant fresh(result) && fresh(result.storage) && result.Valid() && result.size == trie.categoryCount
        invariant Valid()
        invariant forall j :: 0 <= j < i ==> trie.Accepts(record[j])
        invariant forall p: nat :: result.Has(p) <==> MatchedSoFar(trie.entries, record, i - 1, p)
      {
        ok := Narrow(record, i, result);
        if !ok {
          return;
        }
      }
      result.IntersectWith(matchMask);
    }

    /** One turn of the loop: shift, and keep what matches the next field. */
    method Narrow(record: seq<Word>, i: nat, result: BitSet) returns (ok: bool)
      requires trie.Valid() && 0 < i < |record| && trie.categoryCount > 0
      requires result.Valid() && result.size == trie.categoryCount && result.storage !in trie.heap
      requires forall p: nat :: result.Has(p) <==> MatchedSoFar(trie.entries, record, i - 1, p)
      modifies result.storage
      ensures ok <==> trie.Accepts(record[i])
      ensures ValidWord(Lower(record[i])) ==> ok
      ensures ok ==> forall p: nat :: result.Has(p) <==> MatchedSoFar(trie.entries, record, i, p)
    {
      hide TrieMatcher.Valid, TrieMatcher.Accepts, BitSet.Has, MatchedSoFar;
      result.ShiftRight();
      var field: BitSet;
      ok, field := trie.Match(record[i]);
      if !ok {
        return;
      }
      result.IntersectWith(field);
      forall p: nat ensures result.Has(p) <==> MatchedSoFar(trie.entries, record, i, p) {
        ShiftAndStep(trie.entries, record, i, p);
        if field.Has(p) {
          field.HasBelow(p);
        }
      }
    }

    /** The numbers of the rules that match the record, in ascending order. */
    method Match(record: seq<Word>) returns (ok: bool, ret: seq<nat>)
      requires Valid() && |record| == ruleParameterCount && rulesCount > 0
      ensures Valid()
      ensures ok <==> forall i :: 0 <= i < |record| ==> trie.Accepts(record[i])
      ensures (forall i :: 0 <= i < |record| ==> ValidWord(Lower(record[i]))) ==> ok
      ensures ok ==> Ascending(ret)
      ensures ok ==> forall r: nat :: r in ret <==> r < |rules| && RuleMatches(rules[r], record)
    {
      hide TrieMatcher.Valid, TrieMatcher.Accepts, RulesTell, BitSet.Has, MatchedSoFar, RuleMatches;
      ret := [];
      var result: BitSet;
      ok, result := MatchGetBitset(record);
      if !ok {
        return;
      }
      var matched := result.GetSetBitsIndices();
      assert forall p :: p in matched ==> IsLastBit(p, ruleParameterCount);
      ret := ReadRules(matched, ruleParameterCount);
      MatchedRules(trie.entries, rules, rulesCount, ruleParameterCount, record, matched, ret);
    }
  }

  ghost predicate IsLastBit(p: nat, k: nat)
    requires k > 0
  {
    exists r: nat :: p == LastBit(r, k)
  }

  /** Turns the bits of matched rules into rule numbers. */
  method ReadRules(matched: seq<nat>, k: nat) returns (ret: seq<nat>)
    requires k > 0 && Ascending(matched)
    requires forall p :: p in matched ==> IsLastBit(p, k)
    ensures Ascending(ret) && |ret| == |matched|
    ensures forall l :: 0 <= l < |ret| ==> matched[l] == LastBit(ret[l], k)
  {
    ret := [];
    for i := 0 to |matched|
      invariant |ret| == i
      invariant forall l :: 0 <= l < i ==> matched[l] == LastBit(ret[l], k)
    {
      assert matched[i] in matched;
      ghost var r: nat :| matched[i] == LastBit(r, k);
      LastTag(r, k);
      ret := ret + [(matched[i] + 1) / k - 1];
    }
    forall i, j | 0 <= i < j < |ret| ensures ret[i] < ret[j] {
      LastBitOrder(ret[i], ret[j], k);
    }
  }

  /** The rule numbers read from the masked bits are those of the matching rules. */
  lemma MatchedRules(entries: set<Entry>, rules: seq<seq<set<Word>>>, n: nat, k: nat, record: seq<Word>,
                     matched: seq<nat>, ret: seq<nat>)
    requires k > 0 && |record| == k && RulesTell(entries, rules, k) && |rules| <= n
    requires forall p: nat :: p in matched <==>
               MatchedSoFar(entries, record, k - 1, p) && exists r: nat :: r < n && p == LastBit(r, k)
    requires |ret| == |matched| && forall l :: 0 <= l < |ret| ==> matched[l] == LastBit(ret[l], k)
    ensures forall r: nat :: r in ret <==> r < |rules| && RuleMatches(rules[r], record)
  {
    hide RulesTell, MatchedSoFar, RuleMatches;
    forall r: nat ensures r in ret <==> r < |rules| && RuleMatches(rules[r], record) {
      MaskedBitIsRule(entries, rules, k, record, r);
      if r in ret {
        var l :| 0 <= l < |ret| && ret[l] == r;
        assert matched[l] in matched;
      }
      if r < |rules| && RuleMatches(rules[r], record) {
        assert LastBit(r, k) in matched;
        var l :| 0 <= l < |matched| && matched[l] == LastBit(r, k);
        LastTag(r, k);
        LastTag(ret[l], k);
      }
    }
  }

  /** The scan for upper-case letters. */
  method HasNoUpper(p: Word) returns (r: bool)
    ensures r <==> forall l :: 0 <= l < |p| ==> !IsUpper(p[l])
    ensures !r ==> !ValidWord(p)
  {
    for l := 0 to |p|
      invariant forall m :: 0 <= m < l ==> !IsUpper(p[m])
    {
      if IsUpper(p[l]) {
        return false;
      }
    }
    return true;
  }
}
