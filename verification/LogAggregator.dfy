/** The log aggregator: retained entries and their inverted keyword index. */
module LogAggregator {
  import opened Collections

  const MAX_INDEXED_WORD_LEN := 64
  const MAX_WORDS_PER_LOG := 32

  /** `message` is the sanitised text. */
  datatype LogEntry = LogEntry(id: nat, source: string, message: string)

  datatype State = State(logs: seq<LogEntry>, index: map<string, seq<nat>>, nextId: nat, minKeptId: nat)

  /** How text falls into words: library functions that are not part of this model. */
  datatype Text = Text(
    sanitize: string -> string, split: string -> seq<string>, byteLen: string -> nat, lower: string -> string)

  predicate Qualifies(t: Text, word: string) {
    2 < t.byteLen(word) <= MAX_INDEXED_WORD_LEN
  }

  /** The distinct lowercased qualifying words in order of first appearance. */
  function DistinctWords(t: Text, words: seq<string>): seq<string> {
    if words == [] then []
    else
      var n := |words| - 1;
      var front := DistinctWords(t, words[..n]);
      var w := t.lower(words[n]);
      if Qualifies(t, words[n]) && w !in front then front + [w] else front
  }

  function FirstFew(words: seq<string>): seq<string> {
    if |words| <= MAX_WORDS_PER_LOG then words else words[..MAX_WORDS_PER_LOG]
  }

  /** The words under which a message is found: the first 32 distinct ones. */
  function Keywords(t: Text, message: string): seq<string> {
    FirstFew(DistinctWords(t, t.split(message)))
  }

  function Postings(index: map<string, seq<nat>>, w: string): seq<nat> {
    if w in index then index[w] else []
  }

  /** One more posting of `id` under each of `words`. */
  function Indexed(index: map<string, seq<nat>>, words: seq<string>, id: nat): map<string, seq<nat>> {
    if words == [] then index
    else
      var n := |words| - 1;
      var front := Indexed(index, words[..n], id);
      front[words[n] := Postings(front, words[n]) + [id]]
  }

  function KeptPostings(postings: seq<nat>, cutoff: nat): seq<nat> {
    Keeping(postings, From(postings, cutoff))
  }

  function From(postings: seq<nat>, cutoff: nat): set<nat> {
    set i: nat | i in postings && i >= cutoff
  }

  function PrunedIndex(index: map<string, seq<nat>>, cutoff: nat): map<string, seq<nat>> {
    map w | w in index && KeptPostings(index[w], cutoff) != [] :: KeptPostings(index[w], cutoff)
  }

  function Evicted(s: State): State
    requires |s.logs| >= 2
  {
    var drop := |s.logs| / 2;
    var cutoff := s.logs[drop - 1].id + 1;
    State(s.logs[drop..], PrunedIndex(s.index, cutoff), s.nextId, cutoff)
  }

  /** One more entry at the end, indexed under its keywords. */
  function Appended(s: State, t: Text, source: string, clean: string): State {
    State(s.logs + [LogEntry(s.nextId, source, clean)],
          Indexed(s.index, Keywords(t, clean), s.nextId), s.nextId + 1, s.minKeptId)
  }

  function Ingested(s: State, t: Text, maxEntries: nat, source: string, message: string): State
    requires 1 <= maxEntries
  {
    var added := Appended(s, t, source, t.sanitize(message));
    if |added.logs| > maxEntries then Evicted(added) else added
  }

  class LogAggregator {
    const text: Text
    const maxEntries: nat
    var logs: seq<LogEntry>
    var index: map<string, seq<nat>>
    var nextId: nat
    var minKeptId: nat
    var logCounts: map<string, nat>

    function Contents(): State
      reads this
    {
      State(logs, index, nextId, minKeptId)
    }

    constructor (maxEntries: nat, text: Text)
      ensures Contents() == State([], map[], 0, 0) && logCounts == map[]
      ensures 1 <= this.maxEntries && (maxEntries > 0 ==> this.maxEntries == maxEntries) && this.text == text
    {
      this.maxEntries := if maxEntries > 0 then maxEntries else 1;
      this.text := text;
      logs, index, nextId, minKeptId, logCounts := [], map[], 0, 0, map[];
    }

    method Ingest(source: string, message: string)
      requires 1 <= maxEntries
      modifies this
      ensures Contents() == Ingested(old(Contents()), text, maxEntries, source, message)
      ensures logCounts == old(logCounts)[source := 1 + if source in old(logCounts) then old(logCounts)[source] else 0]
    {
      var clean := text.sanitize(message);
      var id := nextId;
      nextId := nextId + 1;
      IndexWords(text.split(clean), id);

      logs := logs + [LogEntry(id, source, clean)];
      assert Contents() == Appended(old(Contents()), text, source, clean);
      if |logs| > maxEntries {
        EvictOldHalf();
      }

      logCounts := logCounts[source := 1 + if source in logCounts then logCounts[source] else 0];
    }

    method EvictOldHalf()
      requires |logs| >= 2
      modifies this`logs, this`index, this`minKeptId
      ensures Contents() == Evicted(old(Contents()))
    {
      var dropCount := |logs| / 2;
      var cutoff := logs[dropCount - 1].id + 1;
      logs := logs[dropCount..];
      minKeptId := cutoff;
      PruneIndex(cutoff);
    }

    /** The word loop: stops at the 33rd distinct word. */
    method IndexWords(words: seq<string>, id: nat)
      modifies this`index
      ensures index == Indexed(old(index), FirstFew(DistinctWords(text, words)), id)
    {
      ghost var before := index;
      var seen: set<string> := {};
      ghost var distinct: seq<string> := [];
      for i := 0 to |words|
        invariant distinct == DistinctWords(text, words[..i]) && seen == AsSet(distinct)
        invariant |seen| == |distinct| <= MAX_WORDS_PER_LOG
        invariant index == Indexed(before, distinct, id)
      {
        var word := words[i];
        OneMoreWord(text, words, i);
        if text.byteLen(word) <= 2 || text.byteLen(word) > MAX_INDEXED_WORD_LEN {
          continue;
        }
        var lower := text.lower(word);
        if lower in seen {
          continue;
        }
        seen := seen + {lower};
        if |seen| > MAX_WORDS_PER_LOG {
          FirstWords(text, words, i + 1);
          return;
        }
        IndexedSnoc(before, distinct, lower, id);
        distinct := distinct + [lower];
        index := index[lower := Postings(index, lower) + [id]];
      }
      assert words[..|words|] == words;
    }

    method PruneIndex(cutoff: nat)
      modifies this`index
      ensures index == PrunedIndex(old(index), cutoff)
    {
      ghost var before := index;
      var emptyKeys: set<string> := {};
      var left := index.Keys;
      while left != {}
        invariant left <= before.Keys == index.Keys
        invariant emptyKeys <= before.Keys - left
        invariant forall w :: w in before ==>
                    index[w] == if w in left then before[w] else KeptPostings(before[w], cutoff)
        invariant forall w :: w in before.Keys - left ==> (w in emptyKeys <==> index[w] == [])
        decreases left
      {
        var w :| w in left;
        index := index[w := KeptPostings(index[w], cutoff)];
        if index[w] == [] {
          emptyKeys := emptyKeys + {w};
        }
        left := left - {w};
      }
      index := index - emptyKeys;
    }
  }

  function AsSet(words: seq<string>): set<string> {
    set w | w in words
  }

  lemma {:induction false} OneMoreWord(t: Text, words: seq<string>, i: nat)
    requires i < |words|
    ensures var front := DistinctWords(t, words[..i]);
            var w := t.lower(words[i]);
            && DistinctWords(t, words[..i + 1]) ==
               (if Qualifies(t, words[i]) && w !in front then front + [w] else front)
            && AsSet(front + [w]) == AsSet(front) + {w}
  {
    assert words[..i + 1][..i] == words[..i];
  }

  lemma IndexedSnoc(index: map<string, seq<nat>>, words: seq<string>, w: string, id: nat)
    ensures var front := Indexed(index, words, id);
            Indexed(index, words + [w], id) == front[w := Postings(front, w) + [id]]
  {
    assert (words + [w])[..|words|] == words;
  }

  /** Once 33 distinct words are seen, the first 32 are known. */
  lemma {:induction false} FirstWords(t: Text, words: seq<string>, n: nat)
    requires 0 < n <= |words|
    requires |DistinctWords(t, words[..n - 1])| == MAX_WORDS_PER_LOG < |DistinctWords(t, words[..n])|
    ensures FirstFew(DistinctWords(t, words)) == DistinctWords(t, words[..n - 1])
  {
    DistinctWordsGrow(t, words, n - 1);
    DistinctWordsGrow(t, words, n);
  }

  /** The distinct words of a prefix are a prefix of the distinct words. */
  lemma {:induction false} DistinctWordsGrow(t: Text, words: seq<string>, n: nat)
    requires n <= |words|
    ensures DistinctWords(t, words[..n]) <= DistinctWords(t, words)
  {
    if n == |words| {
      assert words[..n] == words;
    } else {
      var m := |words| - 1;
      assert words[..m][..n] == words[..n];
      DistinctWordsGrow(t, words[..m], n);
    }
  }

  /** The distinct words are exactly the lowercased qualifying ones. */
  lemma {:induction false} DistinctWordsAre(t: Text, words: seq<string>, w: string)
    ensures w in DistinctWords(t, words) <==>
            exists i :: 0 <= i < |words| && Qualifies(t, words[i]) && t.lower(words[i]) == w
  {
    if words != [] {
      var n := |words| - 1;
      DistinctWordsAre(t, words[..n], w);
      if exists i :: 0 <= i < n && Qualifies(t, words[..n][i]) && t.lower(words[..n][i]) == w {
        var i :| 0 <= i < n && Qualifies(t, words[..n][i]) && t.lower(words[..n][i]) == w;
        assert words[i] == words[..n][i];
      }
      if exists i :: 0 <= i < n && Qualifies(t, words[i]) && t.lower(words[i]) == w {
        var i :| 0 <= i < n && Qualifies(t, words[i]) && t.lower(words[i]) == w;
        assert words[..n][i] == words[i];
      }
    }
  }

  // ----- agreement of the index with the retained entries

  ghost predicate Ascending(postings: seq<nat>) {
    forall i, j :: 0 <= i < j < |postings| ==> postings[i] < postings[j]
  }

  /** Some retained entry has this id and this keyword. */
  ghost predicate Contains(logs: seq<LogEntry>, t: Text, w: string, id: nat) {
    exists k :: 0 <= k < |logs| && logs[k].id == id && w in Keywords(t, logs[k].message)
  }

  ghost predicate Agrees(s: State, t: Text) {
    && (forall w, id :: id in Postings(s.index, w) <==> Contains(s.logs, t, w, id))
    && (forall w :: w in s.index ==> s.index[w] != [] && Ascending(s.index[w]))
  }

  ghost predicate Numbered(s: State) {
    && (forall k :: 0 <= k < |s.logs| ==> s.logs[k].id == s.nextId - |s.logs| + k)
    && |s.logs| <= s.nextId
    && s.minKeptId == s.nextId - |s.logs|
  }

  ghost predicate Inv(s: State, t: Text, maxEntries: nat) {
    Agrees(s, t) && Numbered(s) && |s.logs| <= maxEntries
  }

  lemma {:induction false} IndexedPostings(index: map<string, seq<nat>>, words: seq<string>, id: nat, w: string)
    requires Distinct(words)
    ensures Postings(Indexed(index, words, id), w) == Postings(index, w) + if w in words then [id] else []
    ensures w in Indexed(index, words, id) <==> w in index || w in words
  {
    if words != [] {
      var n := |words| - 1;
      assert words == words[..n] + [words[n]];
      IndexedPostings(index, words[..n], id, w);
    }
  }

  lemma {:induction false} DistinctWordsDistinct(t: Text, words: seq<string>)
    ensures Distinct(DistinctWords(t, words))
  {
    if words != [] {
      DistinctWordsDistinct(t, words[..|words| - 1]);
    }
  }

  lemma KeywordsDistinct(t: Text, message: string)
    ensures Distinct(Keywords(t, message)) && |Keywords(t, message)| <= MAX_WORDS_PER_LOG
  {
    DistinctWordsDistinct(t, t.split(message));
  }

  lemma AppendAgrees(s: State, t: Text, source: string, clean: string)
    requires Agrees(s, t) && Numbered(s)
    ensures Agrees(Appended(s, t, source, clean), t) && Numbered(Appended(s, t, source, clean))
  {
    var s' := Appended(s, t, source, clean);
    KeywordsDistinct(t, clean);
    forall w
      ensures Postings(s'.index, w) == Postings(s.index, w) + (if w in Keywords(t, clean) then [s.nextId] else [])
              && (w in s'.index <==> w in s.index || w in Keywords(t, clean))
    {
      IndexedPostings(s.index, Keywords(t, clean), s.nextId, w);
    }
    forall w, id: nat ensures id in Postings(s'.index, w) <==> Contains(s'.logs, t, w, id) {
      AppendContains(s, t, source, clean, w, id);
    }
    forall w | w in s'.index ensures s'.index[w] != [] && Ascending(s'.index[w]) {
      var old' := Postings(s.index, w);
      forall i | 0 <= i < |old'| ensures old'[i] < s.nextId {
        assert old'[i] in old';
        assert Contains(s.logs, t, w, old'[i]);
      }
    }
  }

  lemma AppendContains(s: State, t: Text, source: string, clean: string, w: string, id: nat)
    ensures Contains(Appended(s, t, source, clean).logs, t, w, id) <==>
            Contains(s.logs, t, w, id) || (id == s.nextId && w in Keywords(t, clean))
  {
    var logs' := Appended(s, t, source, clean).logs;
    if Contains(s.logs, t, w, id) {
      var k :| 0 <= k < |s.logs| && s.logs[k].id == id && w in Keywords(t, s.logs[k].message);
      assert logs'[k] == s.logs[k];
    }
    if id == s.nextId && w in Keywords(t, clean) {
      assert logs'[|s.logs|].id == id;
    }
  }

  lemma {:induction false} KeptAscend(postings: seq<nat>, keep: set<nat>)
    requires Ascending(postings)
    ensures Ascending(Keeping(postings, keep))
  {
    if postings != [] {
      var n := |postings| - 1;
      var front := Keeping(postings[..n], keep);
      KeptAscend(postings[..n], keep);
      forall i | 0 <= i < |front| ensures front[i] < postings[n] {
        assert front[i] in front;
        assert front[i] in postings[..n];
      }
    }
  }

  lemma {:induction false} EvictAgrees(s: State, t: Text)
    requires Agrees(s, t) && Numbered(s) && |s.logs| >= 2
    ensures Agrees(Evicted(s), t) && Numbered(Evicted(s))
  {
    var s' := Evicted(s);
    var drop := |s.logs| / 2;
    var cutoff := s.logs[drop - 1].id + 1;
    forall w, id: nat ensures id in Postings(s'.index, w) <==> Contains(s'.logs, t, w, id) {
      assert id in Postings(s'.index, w) <==> id in Postings(s.index, w) && id >= cutoff by {
        if w in s.index && id in KeptPostings(s.index[w], cutoff) {
          assert KeptPostings(s.index[w], cutoff) != [];
        }
      }
      EvictContains(s, t, w, id);
    }
    forall w | w in s'.index ensures s'.index[w] != [] && Ascending(s'.index[w]) {
      KeptAscend(s.index[w], From(s.index[w], cutoff));
    }
  }

  lemma EvictContains(s: State, t: Text, w: string, id: nat)
    requires Numbered(s) && |s.logs| >= 2
    ensures Contains(Evicted(s).logs, t, w, id) <==>
            Contains(s.logs, t, w, id) && id >= s.logs[|s.logs| / 2 - 1].id + 1
  {
  }

  lemma {:induction false} IngestKeepsInv(s: State, t: Text, maxEntries: nat, source: string, message: string)
    requires 1 <= maxEntries && Inv(s, t, maxEntries)
    ensures Inv(Ingested(s, t, maxEntries, source, message), t, maxEntries)
  {
    var clean := t.sanitize(message);
    AppendAgrees(s, t, source, clean);
    var added := Appended(s, t, source, clean);
    if |added.logs| > maxEntries {
      EvictAgrees(added, t);
    }
  }

  /** The newest entry always survives, under the id it was given, and everything retained is a suffix. */
  lemma NewestSurvives(s: State, t: Text, maxEntries: nat, source: string, message: string)
    requires 1 <= maxEntries && Inv(s, t, maxEntries)
    ensures var logs := Ingested(s, t, maxEntries, source, message).logs;
            var all := s.logs + [LogEntry(s.nextId, source, t.sanitize(message))];
            && logs != [] && logs[|logs| - 1] == LogEntry(s.nextId, source, t.sanitize(message))
            && logs == all[|all| - |logs|..]
            && (|all| <= maxEntries ==> logs == all)
            && (|all| > maxEntries ==> |logs| == |all| - |all| / 2)
  {
  }

  datatype Message = Message(source: string, text: string)

  function AfterAll(t: Text, maxEntries: nat, messages: seq<Message>): State
    requires 1 <= maxEntries
  {
    if messages == [] then State([], map[], 0, 0)
    else
      var n := |messages| - 1;
      Ingested(AfterAll(t, maxEntries, messages[..n]), t, maxEntries, messages[n].source, messages[n].text)
  }

  /**
   After any sequence of ingests an id is posted under a word exactly if the retained entry with that id
   has the word among its keywords; postings and ids ascend, no posting list is empty, the cap holds, and
   the watermark is the first retained id.
   */
  lemma {:induction false} IndexAgrees(t: Text, maxEntries: nat, messages: seq<Message>)
    requires 1 <= maxEntries
    ensures Inv(AfterAll(t, maxEntries, messages), t, maxEntries)
    ensures AfterAll(t, maxEntries, messages).nextId == |messages|
  {
    if messages != [] {
      var n := |messages| - 1;
      IndexAgrees(t, maxEntries, messages[..n]);
      IngestKeepsInv(AfterAll(t, maxEntries, messages[..n]), t, maxEntries, messages[n].source, messages[n].text);
    }
  }
}
