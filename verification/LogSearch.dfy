/** What a search for a word finds, in terms of the messages that were ingested. */
module LogSearch {
  import opened Collections
  import opened LogAggregator

  /** The `i`-th word is long enough and not too long to be indexed. */
  ghost predicate IsIndexable(t: Text, words: seq<string>, i: nat)
    requires i < |words|
  {
    3 <= t.byteLen(words[i]) <= 64
  }

  /** The different indexable words among the first `n`, in lower case. */
  ghost function WordsBefore(t: Text, words: seq<string>, n: nat): set<string>
    requires n <= |words|
  {
    set i | 0 <= i < n && IsIndexable(t, words, i) :: t.lower(words[i])
  }

  /** The text has the word at a place where fewer than 32 different indexable words come before. */
  ghost predicate HasEarly(t: Text, words: seq<string>, n: nat, w: string)
    requires n <= |words|
  {
    exists i :: 0 <= i < n && IsIndexable(t, words, i) && t.lower(words[i]) == w && |WordsBefore(t, words, i)| < 32
  }

  lemma WordsGrow(t: Text, words: seq<string>, n: nat)
    requires n < |words|
    ensures WordsBefore(t, words, n + 1) ==
            WordsBefore(t, words, n) + if IsIndexable(t, words, n) then {t.lower(words[n])} else {}
  {
  }

  lemma NextWord(t: Text, words: seq<string>, i: nat, more: seq<string>)
    requires i < |words| && more == words[..i + 1]
    ensures var front, w := DistinctWords(t, words[..i]), t.lower(words[i]);
            DistinctWords(t, more) == if Qualifies(t, words[i]) && w !in front then front + [w] else front
  {
    assert more[..i] == words[..i];
  }

  lemma {:induction false} DistinctAreBefore(t: Text, words: seq<string>, n: nat)
    requires n <= |words|
    ensures AreMembers(DistinctWords(t, words[..n]), WordsBefore(t, words, n))
  {
    if n > 0 {
      DistinctAreBefore(t, words, n - 1);
      NextWord(t, words, n - 1, words[..n]);
      DistinctStep(t, words, n - 1, DistinctWords(t, words[..n - 1]), DistinctWords(t, words[..n]));
    }
  }

  lemma DistinctStep(t: Text, words: seq<string>, n: nat, list: seq<string>, list': seq<string>)
    requires n < |words| && AreMembers(list, WordsBefore(t, words, n))
    requires list' == if Qualifies(t, words[n]) && t.lower(words[n]) !in list then list + [t.lower(words[n])] else list
    ensures AreMembers(list', WordsBefore(t, words, n + 1))
  {
    WordsGrow(t, words, n);
    OneMoreMember(list, WordsBefore(t, words, n), t.lower(words[n]));
  }

  /** The list has the members of the set, each once. */
  ghost predicate AreMembers(list: seq<string>, members: set<string>) {
    |list| == |members| && forall w :: w in list <==> w in members
  }

  lemma OneMoreMember(list: seq<string>, members: set<string>, w: string)
    requires AreMembers(list, members)
    ensures AreMembers(if w in list then list else list + [w], members + {w})
  {
    if w in list {
      assert members + {w} == members;
    }
  }

  lemma FewOfMore(list: seq<string>, last: string, w: string)
    ensures w in FirstFew(list + [last]) <==> w in FirstFew(list) || (w == last && |list| < 32)
  {
    if |list| >= 32 {
      assert (list + [last])[..32] == list[..32];
    }
  }

  lemma {:induction false} FirstFewAre(t: Text, words: seq<string>, n: nat, w: string)
    requires n <= |words|
    ensures w in FirstFew(DistinctWords(t, words[..n])) <==> HasEarly(t, words, n, w)
  {
    if n > 0 {
      FirstFewAre(t, words, n - 1, w);
      DistinctAreBefore(t, words, n - 1);
      NextWord(t, words, n - 1, words[..n]);
      FewStep(t, words, n, DistinctWords(t, words[..n - 1]), DistinctWords(t, words[..n]), w);
    }
  }

  lemma FewStep(t: Text, words: seq<string>, n: nat, list: seq<string>, list': seq<string>, w: string)
    requires 0 < n <= |words| && AreMembers(list, WordsBefore(t, words, n - 1))
    requires var last := t.lower(words[n - 1]);
             list' == if Qualifies(t, words[n - 1]) && last !in list then list + [last] else list
    requires w in FirstFew(list) <==> HasEarly(t, words, n - 1, w)
    ensures w in FirstFew(list') <==> HasEarly(t, words, n, w)
  {
    OneMoreEarly(t, words, n, w);
    FewOfMore(list, t.lower(words[n - 1]), w);
  }

  lemma OneMoreEarly(t: Text, words: seq<string>, n: nat, w: string)
    requires 0 < n <= |words|
    ensures HasEarly(t, words, n, w) <==>
            HasEarly(t, words, n - 1, w)
            || (IsIndexable(t, words, n - 1) && t.lower(words[n - 1]) == w && |WordsBefore(t, words, n - 1)| < 32)
  {
  }

  /** A message is indexed under a word exactly if it has the word before 32 other ones; so a short one under all. */
  lemma KeywordIff(t: Text, message: string, w: string)
    ensures w in Keywords(t, message) <==> HasEarly(t, t.split(message), |t.split(message)|, w)
  {
    var words := t.split(message);
    FirstFewAre(t, words, |words|, w);
    assert words[..|words|] == words;
  }

  lemma EntryIsOldOrNew(s: State, t: Text, maxEntries: nat, m: Message, e: LogEntry)
    requires 1 <= maxEntries && Inv(s, t, maxEntries)
    requires e in Ingested(s, t, maxEntries, m.source, m.text).logs
    ensures e in s.logs || e == LogEntry(s.nextId, m.source, t.sanitize(m.text))
  {
    var added := Appended(s, t, m.source, t.sanitize(m.text));
    assert e in added.logs;
  }

  ghost predicate IsMessage(t: Text, messages: seq<Message>, e: LogEntry) {
    e.id < |messages| && e.source == messages[e.id].source && e.message == t.sanitize(messages[e.id].text)
  }

  /** An entry carries the number of its message. */
  lemma {:induction false} EntriesAreMessages(t: Text, maxEntries: nat, messages: seq<Message>, e: LogEntry)
    requires 1 <= maxEntries && e in AfterAll(t, maxEntries, messages).logs
    ensures IsMessage(t, messages, e)
  {
    if messages != [] {
      var n := |messages| - 1;
      var front := messages[..n];
      IndexAgrees(t, maxEntries, front);
      EntryIsOldOrNew(AfterAll(t, maxEntries, front), t, maxEntries, messages[n], e);
      if e in AfterAll(t, maxEntries, front).logs {
        EntriesAreMessages(t, maxEntries, front, e);
      }
    }
  }

  /**
   After any ingests: a message is found under a word if and only if it is still retained and has the word, in lower
   case, at a place with fewer than 32 different indexable words before it.
   */
  lemma FoundIff(t: Text, maxEntries: nat, messages: seq<Message>, w: string, id: nat)
    requires 1 <= maxEntries
    ensures var s := AfterAll(t, maxEntries, messages);
            id in Postings(s.index, w) <==>
            s.minKeptId <= id < |messages|
            && var words := t.split(t.sanitize(messages[id].text)); HasEarly(t, words, |words|, w)
  {
    var s := AfterAll(t, maxEntries, messages);
    IndexAgrees(t, maxEntries, messages);
    PostedIff(s, t, maxEntries, w, id);
    if s.minKeptId <= id < |messages| {
      var e := s.logs[id - s.minKeptId];
      EntriesAreMessages(t, maxEntries, messages, e);
      KeywordIff(t, e.message, w);
    }
  }

  lemma PostedIff(s: State, t: Text, maxEntries: nat, w: string, id: nat)
    requires Inv(s, t, maxEntries)
    ensures s.nextId == s.minKeptId + |s.logs|
    ensures s.minKeptId <= id < s.nextId ==> s.logs[id - s.minKeptId].id == id
    ensures id in Postings(s.index, w) <==>
            s.minKeptId <= id < s.nextId && w in Keywords(t, s.logs[id - s.minKeptId].message)
  {
    if s.minKeptId <= id < s.nextId {
      assert s.logs[id - s.minKeptId].id == id;
    }
  }
}
