/** Patterns and the trie that finds every tag whose pattern matches a query. */
module Patterns {

  type Word = string

  datatype EntryType = Prefix | Complete

  datatype Entry = Entry(word: Word, kind: EntryType, tag: nat)

  const INTEGERS := 10
  const ALPHABETS := 59

  predicate IsUpper(c: char) { 'A' <= c <= 'Z' }

  predicate IsDigit(c: char) { '0' <= c <= '9' }

  predicate IsPrint(c: char) { ' ' <= c <= '~' }

  function ToLower(c: char): char {
    if IsUpper(c) then (c as int + 32) as char else c
  }

  /** The query after case folding. */
  function Lower(w: Word): (r: Word)
    ensures |r| == |w| && forall i :: 0 <= i < |w| ==> r[i] == ToLower(w[i])
  {
    seq(|w|, i requires 0 <= i < |w| => ToLower(w[i]))
  }

  /** Slot of a printable character other than a digit or an upper-case letter; -1 for the others. */
  function AlphabetIndex(c: char): int {
    var i := c as int;
    if 32 <= i < 48 then i - 32
    else if 58 <= i < 65 then i - 42
    else if 91 <= i < 127 then i - 68
    else -1
  }

  /** The characters a trie edge can carry. */
  predicate ValidChar(c: char) {
    AlphabetIndex(c) >= 0 || IsDigit(c)
  }

  predicate ValidWord(w: Word) {
    forall i :: 0 <= i < |w| ==> ValidChar(w[i])
  }

  lemma StarIsValid(pattern: Word)
    requires pattern != "" && pattern[|pattern| - 1] == '*'
    ensures ValidWord(pattern) <==> ValidWord(pattern[..|pattern| - 1])
  {
    assert pattern == pattern[..|pattern| - 1] + ['*'];
  }

  /** How a pattern is stored: a trailing star asks for a prefix match. */
  function EntryOf(pattern: Word, tag: nat): Entry
    requires pattern != ""
  {
    if pattern[|pattern| - 1] == '*' then Entry(pattern[..|pattern| - 1], Prefix, tag)
    else Entry(pattern, Complete, tag)
  }

  /** What a pattern means for a query. The query "*" is matched by the pattern "*" alone and
      the empty query by no pattern. */
  ghost predicate PatternMatches(pattern: Word, query: Word)
    requires pattern != ""
  {
    var q := Lower(query);
    if q == "*" then pattern == "*"
    else if q == "" then false
    else if pattern[|pattern| - 1] == '*' then pattern[..|pattern| - 1] <= q
    else pattern == q
  }

  /** The characters a pattern may hold: the printable ones but capitals. */
  lemma UsableCharacters(c: char)
    ensures ValidChar(c) <==> ' ' <= c <= '~' && !('A' <= c <= 'Z')
  {}

  /** Folding turns each capital into its small letter and leaves everything else alone. */
  lemma SmallLetters(c: char)
    ensures 'A' <= c <= 'Z' ==> 'a' <= ToLower(c) <= 'z' && (ToLower(c) as int) - ('a' as int) == (c as int) - ('A' as int)
    ensures !('A' <= c <= 'Z') ==> ToLower(c) == c
  {}

  lemma LowerTwice(w: Word)
    ensures Lower(Lower(w)) == Lower(w)
  {}

  /** A trailing star accepts every query that begins as the pattern does, except the star itself. */
  lemma PrefixAccepts(prefix: Word, query: Word)
    requires query != "" && query != "*"
    ensures PatternMatches(prefix + "*", query) <==>
            |prefix| <= |query| && forall i :: 0 <= i < |prefix| ==> prefix[i] == ToLower(query[i])
  {
    var p, q := prefix + "*", Lower(query);
    assert p[..|p| - 1] == prefix;
    assert query[0] != '*' || |query| > 1 by {
      assert query == [query[0]] + query[1..];
    }
    if |prefix| <= |query| && forall i :: 0 <= i < |prefix| ==> prefix[i] == ToLower(query[i]) {
      assert q[..|prefix|] == prefix;
    }
  }

  /** The star asks for the star, and nothing is matched by the empty query. */
  lemma SpecialQueries(pattern: Word)
    requires pattern != ""
    ensures PatternMatches(pattern, "*") <==> pattern == "*"
    ensures !PatternMatches(pattern, "")
  {
    assert Lower("*") == "*";
  }

  /** Tag `tag` answers a query over a set of stored entries. */
  ghost predicate Answers(entries: set<Entry>, query: Word, tag: nat) {
    var q := Lower(query);
    if q == "*" then Entry("", Prefix, tag) in entries
    else if q == "" then Entry("", Complete, tag) in entries
    else PrefixHit(entries, q, 0, tag) || Entry(q, Complete, tag) in entries
  }

  /** Some stored prefix of `q`, at least `from` characters long, carries the tag. */
  ghost predicate PrefixHit(entries: set<Entry>, q: Word, from: nat, tag: nat) {
    exists k :: from <= k <= |q| && Entry(q[..k], Prefix, tag) in entries
  }

  /** A new entry changes no answer for other tags. */
  lemma OtherTagsUnaffected(entries: set<Entry>, e: Entry, query: Word, tag: nat)
    requires e.tag != tag
    ensures Answers(entries + {e}, query, tag) <==> Answers(entries, query, tag)
  {
    var q := Lower(query);
    assert PrefixHit(entries + {e}, q, 0, tag) <==> PrefixHit(entries, q, 0, tag);
  }

  /** The entries with tag `tag` are those of the patterns. */
  ghost predicate EntriesOf(entries: set<Entry>, patterns: set<Word>, tag: nat) {
    && (forall p :: p in patterns ==> p != "" && EntryOf(p, tag) in entries)
    && (forall e :: e in entries && e.tag == tag ==> PatternOf(e) in patterns && e == EntryOf(PatternOf(e), tag))
  }

  /** The pattern an entry was made from. */
  function PatternOf(e: Entry): Word {
    if e.kind == Prefix then e.word + "*" else e.word
  }

  /** A stored entry that answers a query comes from a pattern that matches it. */
  lemma AnswerHasPattern(entries: set<Entry>, patterns: set<Word>, query: Word, tag: nat) returns (p: Word)
    requires EntriesOf(entries, patterns, tag) && Answers(entries, query, tag)
    ensures p in patterns && p != "" && PatternMatches(p, query)
  {
    var q := Lower(query);
    var e: Entry;
    if q == "*" {
      e := Entry("", Prefix, tag);
    } else if q == "" {
      e := Entry("", Complete, tag);
    } else if PrefixHit(entries, q, 0, tag) {
      var k :| 0 <= k <= |q| && Entry(q[..k], Prefix, tag) in entries;
      e := Entry(q[..k], Prefix, tag);
    } else {
      e := Entry(q, Complete, tag);
    }
    p := PatternOf(e);
  }

  /** A pattern that matches has its entry answer. */
  lemma PatternAnswers(entries: set<Entry>, query: Word, tag: nat, p: Word)
    requires p != "" && EntryOf(p, tag) in entries && PatternMatches(p, query)
    ensures Answers(entries, query, tag)
  {
    var q := Lower(query);
    if q != "*" && p[|p| - 1] == '*' {
      var k := |p| - 1;
      assert q[..k] == p[..k];
    }
  }

  /** Stored entries answer a query exactly as their patterns do. */
  lemma AnswersArePatterns(entries: set<Entry>, patterns: set<Word>, query: Word, tag: nat)
    requires EntriesOf(entries, patterns, tag)
    ensures Answers(entries, query, tag) <==> exists p :: p in patterns && p != "" && PatternMatches(p, query)
  {
    if Answers(entries, query, tag) {
      var p := AnswerHasPattern(entries, patterns, query, tag);
    }
    if p :| p in patterns && p != "" && PatternMatches(p, query) {
      PatternAnswers(entries, query, tag, p);
    }
  }
}

/** The trie itself: heap nodes, ten digit children inline and a table of the other children
    allocated on demand, two tag sets on every node. */
module TrieMatchers {
  import opened BitSets
  import opened Patterns

  /** The loop that numbers the usable characters. */
  method BuildAlphabetsMap() returns (m: seq<int>)
    ensures |m| == 256
    ensures forall i :: 0 <= i < 256 ==> m[i] == AlphabetIndex(i as char)
    ensures forall i :: 0 <= i < 256 ==> m[i] < ALPHABETS
  {
    m := [];
    var ind := 0;
    for i := 0 to 256
      invariant |m| == i
      invariant forall j :: 0 <= j < i ==> m[j] == AlphabetIndex(j as char)
      invariant ind == if i <= 32 then 0 else if i < 48 then i - 32 else if i < 58 then 16
                       else if i < 65 then i - 42 else if i < 91 then 23
                       else if i < 127 then i - 68 else 59
    {
      var c := i as char;
      if IsPrint(c) && !IsUpper(c) && !IsDigit(c) {
        m := m + [ind];
        ind := ind + 1;
      } else {
        m := m + [-1];
      }
    }
  }

  /** Two usable characters never share a slot. */
  lemma SlotsDiffer(c: char, d: char)
    requires ValidChar(c) && ValidChar(d) && c != d
    ensures AlphabetIndex(c) >= 0 && AlphabetIndex(d) >= 0 ==> AlphabetIndex(c) != AlphabetIndex(d)
    ensures AlphabetIndex(c) < 0 && AlphabetIndex(d) < 0 ==> IsDigit(c) && IsDigit(d)
  {}

  class Node {
    // What the node means: its children by edge and the tags on its two marks.
    ghost var kids: map<char, Node>
    ghost var prefixTags: set<nat>
    ghost var completeTags: set<nat>
    ghost const path: Word
    ghost var Repr: set<object>

    const tagCount: nat
    const children: array<Node?>
    var childrenAlphabet: array?<Node?>
    const markComplete: BitSet
    const markPrefix: BitSet

    ghost predicate Valid()
      reads this, Repr
      ensures Valid() ==> this in Repr
    {
      && this in Repr && children in Repr && markComplete.storage in Repr && markPrefix.storage in Repr
      && (childrenAlphabet != null ==> childrenAlphabet in Repr)
      && markComplete.storage != markPrefix.storage
      && markComplete.storage as object != children && markPrefix.storage as object != children
      && markComplete.storage as object != childrenAlphabet && markPrefix.storage as object != childrenAlphabet
      && markComplete.Valid() && markPrefix.Valid()
      && markComplete.size == tagCount && markPrefix.size == tagCount
      && children.Length == INTEGERS
      && (childrenAlphabet != null ==> childrenAlphabet.Length == ALPHABETS)
      && (forall c :: c in kids ==> ValidChar(c))
      && (forall c :: ValidChar(c) ==> Slot(c) == if c in kids then kids[c] else null)
      && (forall t: nat :: t in prefixTags <==> markPrefix.Has(t))
      && (forall t: nat :: t in completeTags <==> markComplete.Has(t))
    }

    /** The content of the slot for edge `c`. */
    ghost function Slot(c: char): Node?
      requires children.Length == INTEGERS && ValidChar(c)
      requires childrenAlphabet != null ==> childrenAlphabet.Length == ALPHABETS
      reads this, children, childrenAlphabet
    {
      if AlphabetIndex(c) < 0 then children[c as int - '0' as int]
      else if childrenAlphabet != null then childrenAlphabet[AlphabetIndex(c)]
      else null
    }

    constructor (tagCount: nat, ghost path: Word)
      ensures Valid() && fresh(Repr)
      ensures this.path == path && this.tagCount == tagCount
      ensures kids == map[] && prefixTags == completeTags == {}
    {
      this.path, this.tagCount := path, tagCount;
      children := new Node?[INTEGERS](_ => null);
      childrenAlphabet := null;
      var complete := new BitSet(tagCount);
      var prefixes := new BitSet(tagCount);
      markComplete, markPrefix := complete, prefixes;
      kids, prefixTags, completeTags := map[], {}, {};
      new;
      Repr := {this, children, markComplete.storage, markPrefix.storage};
    }

    /** The child along `c`, given the number of `c` in the alphabet. */
    method GetChild(c: char, alphabetIndex: int) returns (child: Node?)
      requires Valid() && ValidChar(c) && alphabetIndex == AlphabetIndex(c)
      ensures child == if c in kids then kids[c] else null
    {
      if alphabetIndex > -1 {
        child := if childrenAlphabet == null then null else childrenAlphabet[alphabetIndex];
      } else {
        child := children[c as int - '0' as int];
      }
      assert child == Slot(c);
    }

    /** Makes sure there is a table for the edges other than digits. */
    method ReserveTable()
      requires Valid()
      modifies this
      ensures Valid() && fresh(Repr - old(Repr)) && Repr >= old(Repr)
      ensures prefixTags == old(prefixTags) && completeTags == old(completeTags) && kids == old(kids) && childrenAlphabet != null
    {
      if childrenAlphabet == null {
        childrenAlphabet := new Node?[ALPHABETS](_ => null);
        Repr := Repr + {childrenAlphabet};
        assert forall c :: ValidChar(c) ==> Slot(c) == old(Slot(c));
      }
    }

    /** Hangs a node into the empty slot for `c`. */
    method Attach(c: char, alphabetIndex: int, child: Node)
      requires Valid() && ValidChar(c) && alphabetIndex == AlphabetIndex(c) && c !in kids
      requires alphabetIndex > -1 ==> childrenAlphabet != null
      modifies Repr
      ensures Valid() && Repr == old(Repr) && prefixTags == old(prefixTags) && completeTags == old(completeTags)
      ensures kids == old(kids)[c := child]
    {
      if alphabetIndex > -1 {
        childrenAlphabet[alphabetIndex] := child;
      } else {
        children[c as int - '0' as int] := child;
      }
      kids := kids[c := child];
      forall d | ValidChar(d) ensures Slot(d) == if d == c then child else old(Slot(d)) {
        if d != c {
          SlotsDiffer(c, d);
        }
      }
    }

    /** A new child along `c`. */
    method AddChild(c: char, alphabetIndex: int) returns (child: Node)
      requires Valid() && ValidChar(c) && alphabetIndex == AlphabetIndex(c) && c !in kids
      modifies Repr
      ensures Valid() && fresh(Repr - old(Repr)) && Repr >= old(Repr)
      ensures prefixTags == old(prefixTags) && completeTags == old(completeTags)
      ensures kids == old(kids)[c := child] && fresh(child.Repr)
      ensures child.Valid() && child.Repr !! Repr && child.path == path + [c] && child.tagCount == tagCount
      ensures child.kids == map[] && child.prefixTags == child.completeTags == {}
    {
      if alphabetIndex > -1 {
        ReserveTable();
      }
      child := new Node(tagCount, path + [c]);
      Attach(c, alphabetIndex, child);
    }

    /** Adds the tags of one of the marks to a set. */
    method Collect(kind: EntryType, result: BitSet)
      requires Valid() && result.Valid() && result.size == tagCount && result.storage !in Repr
      modifies result.storage
      ensures forall t: nat :: result.Has(t) <==>
                old(result.Has(t)) || t in (if kind == Prefix then prefixTags else completeTags)
    {
      if kind == Prefix {
        result.UniteWith(markPrefix);
      } else {
        result.UniteWith(markComplete);
      }
    }

    /** Adds a tag to one of the marks. */
    method Mark(kind: EntryType, tag: nat)
      requires Valid() && tag < tagCount
      modifies Repr
      ensures Valid() && Repr == old(Repr) && kids == old(kids)
      ensures prefixTags == old(prefixTags) + (if kind == Prefix then {tag} else {})
      ensures completeTags == old(completeTags) + (if kind == Complete then {tag} else {})
    {
      if kind == Prefix {
        markPrefix.Set(tag);
        prefixTags := prefixTags + {tag};
      } else {
        markComplete.Set(tag);
        completeTags := completeTags + {tag};
      }
      assert forall c :: ValidChar(c) ==> Slot(c) == old(Slot(c));
    }
  }

  /** Whoever has a node has nodes on all of its prefixes. */
  ghost predicate PrefixClosed(words: map<Word, Node>) {
    forall w, c: char {:trigger w + [c]} :: w + [c] in words ==> w in words
  }

  /** No two nodes share memory, and all of it lies in `all`. */
  ghost predicate Apart(memory: map<Word, set<object>>, all: set<object>) {
    && (forall w :: w in memory ==> memory[w] <= all)
    && (forall u, w :: u in memory && w in memory && u != w ==> memory[u] !! memory[w])
  }

  lemma GrownApart(memory: map<Word, set<object>>, all: set<object>, w: Word, mine: set<object>,
                   v: Word, new_: set<object>)
    requires Apart(memory, all) && w in memory && v !in memory
    requires memory[w] <= mine && (mine - memory[w]) !! all && new_ !! all && new_ !! mine
    ensures Apart(memory[w := mine][v := new_], all + mine + new_)
  {}

  lemma ApartFrom(memory: map<Word, set<object>>, all: set<object>, u: Word, w: Word)
    requires Apart(memory, all) && u in memory && w in memory && u != w
    ensures memory[u] !! memory[w] && memory[u] <= all
  {}

  /** Every entry stands on a node and has a tag in range. */
  ghost predicate Placed(entries: set<Entry>, words: map<Word, Node>, tagCount: nat) {
    forall e :: e in entries ==> e.word in words && e.tag < tagCount
  }

  /** A word without a node has no entries. */
  lemma GrownTags(entries: set<Entry>, words: map<Word, Node>, tagCount: nat, w: Word, child: Node)
    requires Placed(entries, words, tagCount) && w !in words
    ensures Placed(entries, words[w := child], tagCount) && TagsTell(w, {}, {}, entries)
  {}

  /** The children of the node at `w` are the nodes one character further on. */
  ghost predicate KidsTell(w: Word, kids: map<char, Node>, nodes: map<Word, Node>) {
    && (forall c :: c in kids ==> w + [c] in nodes && kids[c] == nodes[w + [c]])
    && (forall c {:trigger w + [c]} :: w + [c] in nodes ==> c in kids)
  }

  /** The marks of the node at `w` are the entries with that word. */
  ghost predicate TagsTell(w: Word, prefixTags: set<nat>, completeTags: set<nat>, entries: set<Entry>) {
    && (forall t :: t in prefixTags <==> Entry(w, Prefix, t) in entries)
    && (forall t :: t in completeTags <==> Entry(w, Complete, t) in entries)
  }

  lemma TagsAfterEntry(w: Word, prefixTags: set<nat>, completeTags: set<nat>, entries: set<Entry>, e: Entry)
    requires TagsTell(w, prefixTags, completeTags, entries)
    ensures e.word != w ==> TagsTell(w, prefixTags, completeTags, entries + {e})
    ensures e.word == w && e.kind == Prefix ==> TagsTell(w, prefixTags + {e.tag}, completeTags, entries + {e})
    ensures e.word == w && e.kind == Complete ==> TagsTell(w, prefixTags, completeTags + {e.tag}, entries + {e})
  {}

  /** A new node below `w` fits in. */
  lemma Grown(nodes: map<Word, Node>, w: Word, c: char, child: Node, kids: map<char, Node>)
    requires PrefixClosed(nodes) && w in nodes && w + [c] !in nodes && KidsTell(w, kids, nodes)
    ensures PrefixClosed(nodes[w + [c] := child])
    ensures KidsTell(w + [c], map[], nodes[w + [c] := child])
    ensures KidsTell(w, kids[c := child], nodes[w + [c] := child])
  {
    forall u, d: char | u + [d] == w + [c] ensures u == w && d == c {
      assert u == (u + [d])[..|w|];
      assert (u + [d])[|w|] == d;
    }
  }

  /** The other nodes do not notice. */
  lemma GrownKids(nodes: map<Word, Node>, w: Word, c: char, child: Node, u: Word, kids: map<char, Node>)
    requires w + [c] !in nodes && KidsTell(u, kids, nodes) && u != w
    ensures KidsTell(u, kids, nodes[w + [c] := child])
  {
    forall d: char ensures u + [d] != w + [c] {
      assert (u + [d])[..|u|] == u && (w + [c])[..|w|] == w;
    }
  }

  class TrieMatcher {
    const categoryCount: nat
    const root: Node
    const alphabetsMap: seq<int>

    ghost var nodes: map<Word, Node>          // every node, by the word that leads to it
    ghost var memory: map<Word, set<object>>  // and the memory it owns
    ghost var entries: set<Entry>             // what has been stored
    ghost var heap: set<object>               // the memory of all nodes

    ghost predicate Valid()
      reads this, heap
    {
      && "" in nodes && nodes[""] == root
      && Books()
      && (forall w :: w in nodes ==> NodeOk(w))
    }

    /** What the ghost records say about each other. */
    ghost predicate Books()
      reads this
    {
      && this !in heap
      && |alphabetsMap| == 256
      && (forall i :: 0 <= i < 256 ==> alphabetsMap[i] == AlphabetIndex(i as char))
      && (forall w :: w in nodes <==> w in memory)
      && Apart(memory, heap)
      && PrefixClosed(nodes)
      && Placed(entries, nodes, categoryCount)
    }

    /** One node stands where its word says, knows its children and carries its tags. */
    ghost predicate NodeOk(w: Word)
      requires w in nodes && w in memory
      reads this, heap
    {
      var n := nodes[w];
      && n in heap && n.Repr <= heap && this !in n.Repr && n.Repr == memory[w] && n.Valid()
      && n.path == w && n.tagCount == categoryCount
      && KidsTell(w, n.kids, nodes)
      && TagsTell(w, n.prefixTags, n.completeTags, entries)
    }

    constructor (categoryCount: nat)
      ensures Valid() && fresh(heap)
      ensures this.categoryCount == categoryCount && entries == {}
    {
      hide Node.Valid;
      this.categoryCount := categoryCount;
      var m := BuildAlphabetsMap();
      alphabetsMap := m;
      var r := new Node(categoryCount, "");
      root := r;
      nodes, memory, entries := map["" := r], map["" := r.Repr], {};
      new;
      heap := r.Repr;
    }

    /** A node whose memory was left alone is as it was. */
    twostate lemma NodeKept(n: Node)
      requires old(n.Valid()) && unchanged(old(n.Repr))
      ensures n.Valid() && n.Repr == old(n.Repr) && n.kids == old(n.kids)
      ensures n.prefixTags == old(n.prefixTags) && n.completeTags == old(n.completeTags)
    {}

    method MarkNode(n: Node, kind: EntryType, tag: nat)
      requires Valid() && n.path in nodes && nodes[n.path] == n && tag < categoryCount
      modifies this, heap
      ensures Valid() && heap == old(heap)
      ensures entries == old(entries) + {Entry(n.path, kind, tag)}
    {
      hide Node.Valid, Apart, KidsTell, TagsTell, PrefixClosed;
      ghost var e := Entry(n.path, kind, tag);
      assert NodeOk(n.path);
      n.Mark(kind, tag);
      entries := entries + {e};
      forall u | u in nodes ensures NodeOk(u) {
        ghost var m := nodes[u];
        TagsAfterEntry(u, old(m.prefixTags), old(m.completeTags), old(entries), e);
        if u != n.path {
          ApartFrom(memory, heap, u, n.path);
          NodeKept(m);
        } else if kind == Prefix {
          assert m.completeTags == old(m.completeTags);
        } else {
          assert m.prefixTags == old(m.prefixTags);
        }
      }
    }

    /** The child of `n` along `c`, added to the trie when missing. */
    method Descend(n: Node, c: char, alphabetIndex: int) returns (child: Node)
      requires Valid() && n.path in nodes && nodes[n.path] == n
      requires ValidChar(c) && alphabetIndex == AlphabetIndex(c)
      modifies this, heap
      ensures Valid() && fresh(heap - old(heap))
      ensures entries == old(entries)
      ensures n.path + [c] in nodes && nodes[n.path + [c]] == child
    {
      hide Node.Valid;
      assert NodeOk(n.path);
      var present := n.GetChild(c, alphabetIndex);
      assert n.path + [c] in nodes <==> c in n.kids;
      if present == null {
        child := Extend(n, c, alphabetIndex);
      } else {
        child := present;
      }
    }

    /** Everything of `Valid` but the state of the node at `except`. */
    ghost predicate ValidBut(except: Word)
      reads this, heap
    {
      && "" in nodes && nodes[""] == root
      && Books()
      && (forall w :: w in nodes && w != except ==> NodeOk(w))
    }

    method Extend(n: Node, c: char, alphabetIndex: int) returns (child: Node)
      requires Valid() && n.path in nodes && nodes[n.path] == n
      requires ValidChar(c) && alphabetIndex == AlphabetIndex(c)
      requires c !in n.kids && n.path + [c] !in nodes
      modifies this, heap
      ensures Valid() && fresh(heap - old(heap))
      ensures entries == old(entries)
      ensures nodes == old(nodes)[n.path + [c] := child]
    {
      hide Node.Valid, Apart, KidsTell, TagsTell, PrefixClosed, Placed;
      assert NodeOk(n.path);
      child := n.AddChild(c, alphabetIndex);
      forall u | u in nodes && u != n.path ensures NodeOk(u) {
        ApartFrom(memory, heap, u, n.path);
        NodeKept(nodes[u]);
      }
      Adopt(n, c, child, old(n.kids));
    }

    /** Takes a child just hung below `n`, and the memory that came with it, into the books. */
    ghost method Adopt(n: Node, c: char, child: Node, kids: map<char, Node>)
      requires ValidBut(n.path) && n.path in nodes && n.path + [c] !in nodes
      requires nodes[n.path] == n && n.Valid() && n.tagCount == categoryCount
      requires this !in n.Repr && memory[n.path] <= n.Repr && (n.Repr - memory[n.path]) !! heap
      requires KidsTell(n.path, kids, nodes) && n.kids == kids[c := child]
      requires TagsTell(n.path, n.prefixTags, n.completeTags, entries)
      requires this !in child.Repr && child.Repr !! heap && child.Repr !! n.Repr
      requires child.Valid() && child.path == n.path + [c] && child.tagCount == categoryCount
      requires child.kids == map[] && child.prefixTags == child.completeTags == {}
      modifies this
      ensures Valid() && heap == old(heap) + n.Repr + child.Repr
      ensures entries == old(entries) && nodes == old(nodes)[n.path + [c] := child]
    {
      hide Node.Valid, Apart, KidsTell, TagsTell, PrefixClosed, Placed;
      ghost var w := n.path;
      Grown(nodes, w, c, child, kids);
      GrownApart(memory, heap, w, n.Repr, w + [c], child.Repr);
      GrownTags(entries, nodes, categoryCount, w + [c], child);
      nodes := nodes[w + [c] := child];
      memory := memory[w := n.Repr][w + [c] := child.Repr];
      heap := heap + n.Repr + child.Repr;
      forall u | u in nodes ensures NodeOk(u) {
        if u in old(nodes) && u != w {
          assert old(NodeOk(u));
          GrownKids(old(nodes), w, c, child, u, nodes[u].kids);
        }
      }
    }

    /** Stores a word: walks its path from `n`, creating what is missing, and marks the last node.
        A character that no edge can carry stops the walk; the nodes made until then remain. */
    method InsertNode(n: Node, word: Word, index: nat, tag: nat, kind: EntryType) returns (ok: bool)
      requires Valid() && tag < categoryCount && index < |word|
      requires word[..index] in nodes && nodes[word[..index]] == n
      modifies this, heap
      ensures Valid() && fresh(heap - old(heap))
      ensures ok <==> ValidWord(word[index..])
      ensures entries == if ok then old(entries) + {Entry(word, kind, tag)} else old(entries)
      decreases |word| - index
    {
      hide Node.Valid, Apart, KidsTell, TagsTell, PrefixClosed, Placed;
      var c := word[index];
      assert c == word[index..][0];
      assert NodeOk(word[..index]);
      if c as int >= |alphabetsMap| {
        return false;
      }
      var alphabetIndex := alphabetsMap[c as int];
      if !(alphabetIndex > -1 || IsDigit(c)) {
        return false;
      }
      var child := Descend(n, c, alphabetIndex);
      assert word[..index] + [c] == word[..index + 1];
      assert word[index..] == [c] + word[index + 1..];
      if index == |word| - 1 {
        assert NodeOk(word[..index + 1]);
        assert word[..index + 1] == word;
        MarkNode(child, kind, tag);
        ok := true;
      } else {
        ok := InsertNode(child, word, index + 1, tag, kind);
      }
    }

    /** Stores a word under a mark. */
    method AddWord(word: Word, tag: nat, kind: EntryType) returns (ok: bool)
      requires Valid() && tag < categoryCount
      modifies this, heap
      ensures Valid() && fresh(heap - old(heap))
      ensures ok <==> ValidWord(word)
      ensures entries == if ok then old(entries) + {Entry(word, kind, tag)} else old(entries)
    {
      if |word| == 0 {
        assert NodeOk("");
        MarkNode(root, kind, tag);
        ok := true;
      } else {
        assert word[..0] == "" && word[0..] == word;
        ok := InsertNode(root, word, 0, tag, kind);
      }
    }

    /** Stores a pattern. */
    method AddEntry(pattern: Word, tag: nat) returns (ok: bool)
      requires Valid() && tag < categoryCount && pattern != ""
      modifies this, heap
      ensures Valid() && fresh(heap - old(heap))
      ensures ok <==> ValidWord(pattern)
      ensures entries == if ok then old(entries) + {EntryOf(pattern, tag)} else old(entries)
    {
      hide Node.Valid, Apart, PrefixClosed, Placed, KidsTell, TagsTell;
      if pattern[|pattern| - 1] == '*' {
        ok := AddWord(pattern[..|pattern| - 1], tag, Prefix);
        StarIsValid(pattern);
      } else {
        ok := AddWord(pattern, tag, Complete);
      }
    }

    /** The walk over `word` from `index` never meets a node and a character it cannot read. */
    ghost predicate Readable(word: Word, index: nat)
      reads this
    {
      forall k :: index <= k < |word| && word[..k] in nodes ==> ValidChar(word[k])
    }

    /** Follows the query and collects the marks on the way. */
    method TraceNodes(n: Node?, word: Word, index: nat, result: BitSet) returns (ok: bool)
      requires Valid() && index <= |word|
      requires n == if word[..index] in nodes then nodes[word[..index]] else null
      requires result.Valid() && result.size == categoryCount && result.storage !in heap
      modifies result.storage
      ensures Valid()
      ensures ok <==> Readable(word, index)
      ensures ok ==> forall t: nat :: result.Has(t) <==>
                old(result.Has(t)) || PrefixHit(entries, word, index, t) || Entry(word, Complete, t) in entries
      decreases |word| - index
    {
      hide Node.Valid, Apart, PrefixClosed, Placed;
      if n == null {
        NothingBelow(word, index);
        return true;
      }
      assert NodeOk(word[..index]);
      n.Collect(Prefix, result);
      if index == |word| {
        assert word[..index] == word;
        n.Collect(Complete, result);
        return true;
      }
      var c := word[index];
      if c as int >= |alphabetsMap| {
        return false;
      }
      var alphabetIndex := alphabetsMap[c as int];
      if !(alphabetIndex > -1 || IsDigit(c)) {
        return false;
      }
      var child := n.GetChild(c, alphabetIndex);
      assert word[..index] + [c] == word[..index + 1];
      ok := TraceNodes(child, word, index + 1, result);
    }

    /** Below a missing node there are no nodes, hence no entries. */
    lemma NothingBelow(word: Word, index: nat)
      requires Valid() && index <= |word| && word[..index] !in nodes
      ensures forall k :: index <= k <= |word| ==> word[..k] !in nodes
      ensures forall t: nat :: !PrefixHit(entries, word, index, t) && Entry(word, Complete, t) !in entries
    {
      hide Node.Valid, Apart, KidsTell, TagsTell;
      var k := index;
      while k < |word|
        invariant index <= k <= |word|
        invariant forall j :: index <= j <= k ==> word[..j] !in nodes
      {
        assert word[..k + 1] == word[..k] + [word[k]];
        k := k + 1;
      }
      assert word[..|word|] == word;
    }

    /** The query can be walked: it is the star, or its walk never meets a node and a character that
        no edge can carry. */
    ghost predicate Accepts(query: Word)
      reads this
    {
      Lower(query) == "*" || Readable(Lower(query), 0)
    }

    /** The tags whose stored entries match the query; an unreadable query is an error. */
    method Match(query: Word) returns (ok: bool, ret: BitSet)
      requires Valid()
      ensures Valid()
      ensures ok <==> Accepts(query)
      ensures ValidWord(Lower(query)) ==> ok
      ensures fresh(ret) && fresh(ret.storage) && ret.Valid() && ret.size == categoryCount
      ensures ok ==> forall t: nat :: ret.Has(t) <==> Answers(entries, query, t)
    {
      hide Node.Valid, Apart, PrefixClosed, Placed, KidsTell;
      var q := Lower(query);
      ret := new BitSet(categoryCount);
      ok := true;
      assert NodeOk("");
      if q == "*" {
        root.Collect(Prefix, ret);
      } else if |q| == 0 {
        root.Collect(Complete, ret);
      } else {
        assert q[..0] == "";
        ok := TraceNodes(root, q, 0, ret);
      }
    }
  }
}
