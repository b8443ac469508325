/**
 * The shared part of tools/trans_rest.py: the JSON dictionary file and the
 * progress counter that the pool's workers update under one lock, the worker
 * (`translate_batch_worker`) and the whole run (`translate_and_update`).
 *
 * The pool runs the batches in an order the model does not choose; a run is
 * therefore parameterised by a schedule, the order in which the workers
 * enter the locked section. The lock makes each worker's read-update-write
 * of the file one step, so the file after the run is the saved dictionary
 * updated by each batch's result, in schedule order.
 */
module VocabularyStore {
  import opened Wrappers
  import opened Strings
  import opened BatchTranslator

  /** The indices `0 .. n-1` in increasing order. */
  function Range(n: nat): seq<nat>
  {
    if n == 0 then [] else Range(n - 1) + [n - 1]
  }

  /** `order` is a schedule of `n` batches: every batch index exactly once, in some order. */
  predicate IsSchedule(order: seq<nat>, n: nat)
  {
    multiset(order) == multiset(Range(n))
  }

  predicate InRange(order: seq<nat>, n: nat)
  {
    forall k :: 0 <= k < |order| ==> order[k] < n
  }

  /** No value occurs twice in `s`. */
  predicate Distinct(s: seq<string>)
  {
    forall x :: x in s ==> multiset(s)[x] <= 1
  }

  lemma {:induction false} RangeMembers(n: nat)
    ensures |Range(n)| == n
    ensures forall x :: x in Range(n) <==> 0 <= x < n
  {
    if n > 0 {
      RangeMembers(n - 1);
      forall x ensures x in Range(n) <==> 0 <= x < n {
        assert x in Range(n) <==> x in Range(n - 1) || x == n - 1;
      }
    }
  }

  lemma {:induction false} RangeCounts(n: nat)
    ensures forall x :: multiset(Range(n))[x] <= 1
  {
    if n > 0 {
      RangeCounts(n - 1);
      RangeMembers(n - 1);
      assert multiset(Range(n)) == multiset(Range(n - 1)) + multiset{(n - 1) as nat};
      assert (n - 1) !in Range(n - 1);
      assert multiset(Range(n - 1))[n - 1] == 0;
    }
  }

  lemma RangeFacts(n: nat)
    ensures |Range(n)| == n
    ensures forall x :: x in Range(n) <==> 0 <= x < n
    ensures forall x :: multiset(Range(n))[x] <= 1
  {
    RangeMembers(n);
    RangeCounts(n);
  }

  /** A schedule has one entry per batch, every entry names a batch and every batch is named. */
  lemma ScheduleCovers(order: seq<nat>, n: nat)
    requires IsSchedule(order, n)
    ensures |order| == n
    ensures InRange(order, n)
    ensures forall i :: 0 <= i < n ==> i in order
  {
    RangeFacts(n);
    assert |order| == |multiset(order)| == |multiset(Range(n))|;
    forall k | 0 <= k < |order| ensures order[k] < n {
      assert order[k] in multiset(order);
      assert order[k] in Range(n);
    }
    forall i | 0 <= i < n ensures i in order {
      assert i in Range(n);
      assert i in multiset(Range(n));
    }
  }

  /** No batch is named twice by a schedule. */
  lemma ScheduleDistinct(order: seq<nat>, n: nat)
    requires IsSchedule(order, n)
    ensures forall a, b :: 0 <= a < b < |order| ==> order[a] != order[b]
  {
    RangeFacts(n);
    forall a, b | 0 <= a < b < |order| ensures order[a] != order[b] {
      assert order == order[..b] + order[b..];
      assert order[a] in order[..b];
      assert order[b] in order[b..];
      assert multiset(order)[order[b]] == multiset(order[..b])[order[b]] + multiset(order[b..])[order[b]];
    }
  }

  lemma ScheduleFacts(order: seq<nat>, n: nat)
    requires IsSchedule(order, n)
    ensures |order| == n
    ensures InRange(order, n)
    ensures forall i :: 0 <= i < n ==> i in order
    ensures forall a, b :: 0 <= a < b < |order| ==> order[a] != order[b]
  {
    ScheduleCovers(order, n);
    ScheduleDistinct(order, n);
  }

  /**
   * `store.update(partial)`: every old key stays, every key of `partial` maps
   * to its value there (overwriting on a conflict), an old key `partial` lacks
   * keeps its value, and no other key appears.
   */
  function Merged(store: map<string, string>, partial: map<string, string>): (m: map<string, string>)
    ensures m.Keys == store.Keys + partial.Keys
    ensures forall w :: w in partial ==> m[w] == partial[w]
    ensures forall w :: w in store && w !in partial ==> m[w] == store[w]
    ensures |store| <= |m|
  {
    var m := store + partial;
    assert store.Keys <= m.Keys;
    SubsetAtMost(store.Keys, m.Keys);
    m
  }

  /**
   * The file's dictionary after the workers of `order[..]` have committed, in
   * that order, onto `base`: no key of `base` is lost.
   */
  function Committed(base: map<string, string>, batches: seq<Batch>, provider: BatchProvider, order: seq<nat>): (m: map<string, string>)
    requires InRange(order, |batches|)
    ensures base.Keys <= m.Keys
    ensures |base| <= |m|
  {
    if |order| == 0 then base
    else
      Merged(Committed(base, batches, provider, order[..|order| - 1]),
        BatchResult(provider, batches[order[|order| - 1]].words))
  }

  /**
   * The progress counter's total increase after the workers of `order` have
   * committed: at least the size of each committed batch.
   */
  function CommittedWords(batches: seq<Batch>, order: seq<nat>): (total: nat)
    requires InRange(order, |batches|)
    ensures forall k :: 0 <= k < |order| ==> |batches[order[k]].words| <= total
  {
    if |order| == 0 then 0
    else CommittedWords(batches, order[..|order| - 1]) + |batches[order[|order| - 1]].words|
  }

  /** A word some committed batch returned is in the committed dictionary. */
  lemma {:induction false} CommittedHasReturned(base: map<string, string>, batches: seq<Batch>, provider: BatchProvider, order: seq<nat>, k: nat, w: string)
    requires InRange(order, |batches|)
    requires k < |order| && w in BatchResult(provider, batches[order[k]].words)
    ensures w in Committed(base, batches, provider, order)
  {
    if k < |order| - 1 {
      var init := order[..|order| - 1];
      assert init[k] == order[k];
      CommittedHasReturned(base, batches, provider, init, k, w);
    }
  }

  /** A base entry stays a key. */
  lemma {:induction false} CommittedHasBase(base: map<string, string>, batches: seq<Batch>, provider: BatchProvider, order: seq<nat>, w: string)
    requires InRange(order, |batches|)
    requires w in base
    ensures w in Committed(base, batches, provider, order)
  {
    if |order| > 0 {
      CommittedHasBase(base, batches, provider, order[..|order| - 1], w);
    }
  }

  /** A new key of the committed dictionary comes from some committed batch's result. */
  lemma {:induction false} CommittedKeySource(base: map<string, string>, batches: seq<Batch>, provider: BatchProvider, order: seq<nat>, w: string) returns (k: nat)
    requires InRange(order, |batches|)
    requires w in Committed(base, batches, provider, order) && w !in base
    ensures k < |order| && w in BatchResult(provider, batches[order[k]].words)
  {
    var last := |order| - 1;
    if w in BatchResult(provider, batches[order[last]].words) {
      k := last;
    } else {
      var init := order[..last];
      k := CommittedKeySource(base, batches, provider, init, w);
      assert init[k] == order[k];
    }
  }

  /** A key is in the committed dictionary exactly when it was in the base or one of the committed batches returned it. */
  lemma CommittedKeys(base: map<string, string>, batches: seq<Batch>, provider: BatchProvider, order: seq<nat>)
    requires InRange(order, |batches|)
    ensures forall w :: w in Committed(base, batches, provider, order) <==>
      w in base || exists k :: 0 <= k < |order| && w in BatchResult(provider, batches[order[k]].words)
  {
    forall w | w in Committed(base, batches, provider, order) && w !in base
      ensures exists k :: 0 <= k < |order| && w in BatchResult(provider, batches[order[k]].words)
    {
      var k := CommittedKeySource(base, batches, provider, order, w);
    }
    forall w | w in base ensures w in Committed(base, batches, provider, order) {
      CommittedHasBase(base, batches, provider, order, w);
    }
    forall w, k | 0 <= k < |order| && w in BatchResult(provider, batches[order[k]].words)
      ensures w in Committed(base, batches, provider, order)
    {
      CommittedHasReturned(base, batches, provider, order, k, w);
    }
  }

  /**
   * No worker overwrites an entry of the base when no batch holds a word the
   * base already has: every base entry survives with its value.
   */
  lemma {:induction false} CommittedKeepsBase(base: map<string, string>, batches: seq<Batch>, provider: BatchProvider, order: seq<nat>)
    requires InRange(order, |batches|)
    requires forall i, w :: 0 <= i < |batches| && w in batches[i].words ==> w !in base
    ensures forall w :: w in base ==>
      w in Committed(base, batches, provider, order) && Committed(base, batches, provider, order)[w] == base[w]
  {
    if |order| > 0 {
      CommittedKeepsBase(base, batches, provider, order[..|order| - 1]);
    }
  }

  /** No word is in two different batches. */
  predicate DisjointBatches(batches: seq<Batch>)
  {
    forall i, j, w :: 0 <= i < |batches| && 0 <= j < |batches| && i != j && w in batches[i].words ==>
      w !in batches[j].words
  }

  /**
   * With disjoint batches and each batch committed once, a word a batch
   * returned keeps that batch's value, whatever the order of the commits.
   */
  lemma {:induction false} CommittedValue(base: map<string, string>, batches: seq<Batch>, provider: BatchProvider, order: seq<nat>, k: nat, w: string)
    requires InRange(order, |batches|)
    requires forall a, b :: 0 <= a < b < |order| ==> order[a] != order[b]
    requires DisjointBatches(batches)
    requires k < |order| && w in BatchResult(provider, batches[order[k]].words)
    ensures w in Committed(base, batches, provider, order)
    ensures Committed(base, batches, provider, order)[w] == BatchResult(provider, batches[order[k]].words)[w]
  {
    var last := order[|order| - 1];
    if k < |order| - 1 {
      var init := order[..|order| - 1];
      assert init[k] == order[k];
      CommittedValue(base, batches, provider, init, k, w);
      assert order[k] != last;
      assert w !in BatchResult(provider, batches[last].words);
    }
  }

  /**
   * A word that no other batch holds keeps the value its own batch returned,
   * whatever the order of the commits. Repeats inside that batch are allowed.
   */
  lemma {:induction false} CommittedValueSoleBatch(base: map<string, string>, batches: seq<Batch>, provider: BatchProvider, order: seq<nat>, k: nat, w: string)
    requires InRange(order, |batches|)
    requires forall a, b :: 0 <= a < b < |order| ==> order[a] != order[b]
    requires k < |order| && w in BatchResult(provider, batches[order[k]].words)
    requires forall j :: 0 <= j < |batches| && j != order[k] ==> w !in batches[j].words
    ensures w in Committed(base, batches, provider, order)
    ensures Committed(base, batches, provider, order)[w] == BatchResult(provider, batches[order[k]].words)[w]
  {
    var last := order[|order| - 1];
    if k < |order| - 1 {
      var init := order[..|order| - 1];
      assert init[k] == order[k];
      CommittedValueSoleBatch(base, batches, provider, init, k, w);
      assert order[k] != last;
      assert w !in batches[last].words;
    }
  }

  lemma {:induction false} CommittedWordsOfConcat(batches: seq<Batch>, a: seq<nat>, b: seq<nat>)
    requires InRange(a, |batches|) && InRange(b, |batches|)
    ensures InRange(a + b, |batches|)
    ensures CommittedWords(batches, a + b) == CommittedWords(batches, a) + CommittedWords(batches, b)
  {
    if |b| > 0 {
      var b' := b[..|b| - 1];
      assert (a + b)[..|a + b| - 1] == a + b';
      CommittedWordsOfConcat(batches, a, b');
    } else {
      assert a + b == a;
    }
  }

  /** Taking the last entry of `o1` and the same value at `j` out of `o2` keeps the two multisets equal. */
  lemma RemoveMatching(o1: seq<nat>, o2: seq<nat>, j: nat)
    requires |o1| > 0 && j < |o2| && o2[j] == o1[|o1| - 1]
    requires multiset(o1) == multiset(o2)
    ensures multiset(o1[..|o1| - 1]) == multiset(o2[..j] + o2[j + 1..])
  {
    var x := o1[|o1| - 1];
    var init := o1[..|o1| - 1];
    var rest := o2[..j] + o2[j + 1..];
    assert o1 == init + [x];
    assert o2 == o2[..j] + [x] + o2[j + 1..];
    forall y ensures multiset(init)[y] == multiset(rest)[y] {
      assert multiset(o1)[y] == multiset(init)[y] + multiset([x])[y];
      assert multiset(o2)[y] == multiset(o2[..j])[y] + multiset([x])[y] + multiset(o2[j + 1..])[y];
    }
  }

  /** The counter's increase does not depend on the order of the commits. */
  lemma {:induction false} CommittedWordsPermutation(batches: seq<Batch>, o1: seq<nat>, o2: seq<nat>)
    requires InRange(o1, |batches|) && InRange(o2, |batches|)
    requires multiset(o1) == multiset(o2)
    ensures CommittedWords(batches, o1) == CommittedWords(batches, o2)
    decreases |o1|
  {
    if |o1| == 0 {
      assert |o2| == |multiset(o2)| == 0;
    } else {
      var x := o1[|o1| - 1];
      var init := o1[..|o1| - 1];
      assert x in multiset(o1);
      assert x in multiset(o2);
      var j :| 0 <= j < |o2| && o2[j] == x;
      var rest := o2[..j] + o2[j + 1..];
      assert o2 == o2[..j] + [x] + o2[j + 1..];
      RemoveMatching(o1, o2, j);
      CommittedWordsPermutation(batches, init, rest);
      CommittedWordsOfConcat(batches, o2[..j], [x]);
      CommittedWordsOfConcat(batches, o2[..j] + [x], o2[j + 1..]);
      CommittedWordsOfConcat(batches, o2[..j], o2[j + 1..]);
    }
  }

  lemma {:induction false} BatchedWordsOfConcat(a: seq<Batch>, b: seq<Batch>)
    ensures BatchedWords(a + b) == BatchedWords(a) + BatchedWords(b)
  {
    if |a| == 0 {
      assert a + b == b;
    } else {
      assert (a + b)[1..] == a[1..] + b;
      BatchedWordsOfConcat(a[1..], b);
    }
  }

  lemma {:induction false} CommittedWordsInOrder(batches: seq<Batch>, n: nat)
    requires n <= |batches|
    ensures InRange(Range(n), |batches|)
    ensures CommittedWords(batches, Range(n)) == |BatchedWords(batches[..n])|
  {
    RangeFacts(n);
    if n > 0 {
      CommittedWordsInOrder(batches, n - 1);
      assert Range(n)[..n - 1] == Range(n - 1);
      assert batches[..n] == batches[..n - 1] + [batches[n - 1]];
      BatchedWordsOfConcat(batches[..n - 1], [batches[n - 1]]);
    }
  }

  /** Whatever the schedule, the counter grows by the number of batched words. */
  lemma CommittedWordsOfSchedule(batches: seq<Batch>, order: seq<nat>)
    requires IsSchedule(order, |batches|)
    ensures InRange(order, |batches|)
    ensures CommittedWords(batches, order) == |BatchedWords(batches)|
  {
    ScheduleFacts(order, |batches|);
    CommittedWordsInOrder(batches, |batches|);
    assert batches[..|batches|] == batches;
    CommittedWordsPermutation(batches, order, Range(|batches|));
  }

  lemma {:induction false} InBatchedWords(batches: seq<Batch>, i: nat)
    requires i < |batches|
    ensures forall w :: w in batches[i].words ==> w in BatchedWords(batches)
  {
    if i > 0 {
      InBatchedWords(batches[1..], i - 1);
    }
  }

  lemma {:induction false} BatchOfWord(batches: seq<Batch>, w: string) returns (i: nat)
    requires w in BatchedWords(batches)
    ensures i < |batches| && w in batches[i].words
  {
    if w in batches[0].words {
      i := 0;
    } else {
      var j := BatchOfWord(batches[1..], w);
      i := j + 1;
    }
  }

  /** Batches cut from a list without duplicates share no word. */
  lemma {:induction false} DistinctBatchesAreDisjoint(batches: seq<Batch>)
    requires Distinct(BatchedWords(batches))
    ensures DisjointBatches(batches)
  {
    if |batches| > 0 {
      var rest := batches[1..];
      assert multiset(BatchedWords(batches)) == multiset(batches[0].words) + multiset(BatchedWords(rest));
      forall x | x in BatchedWords(rest) ensures multiset(BatchedWords(rest))[x] <= 1 {
        assert x in multiset(BatchedWords(batches));
      }
      DistinctBatchesAreDisjoint(rest);
      forall i, j, w | 0 <= i < |batches| && 0 <= j < |batches| && i != j && w in batches[i].words
        ensures w !in batches[j].words
      {
        assert multiset(BatchedWords(batches))[w] == multiset(batches[0].words)[w] + multiset(BatchedWords(rest))[w];
        if i == 0 {
          InBatchedWords(rest, j - 1);
        } else if j == 0 {
          InBatchedWords(rest, i - 1);
        } else {
          assert rest[i - 1] == batches[i] && rest[j - 1] == batches[j];
        }
      }
    }
  }

  /** Under a schedule, the committed keys are the base's and those of every batch's result. */
  lemma CommittedKeysOfSchedule(base: map<string, string>, batches: seq<Batch>, provider: BatchProvider, order: seq<nat>)
    requires IsSchedule(order, |batches|)
    ensures InRange(order, |batches|)
    ensures forall w :: w in Committed(base, batches, provider, order) <==>
      w in base || exists i :: 0 <= i < |batches| && w in BatchResult(provider, batches[i].words)
  {
    ScheduleCovers(order, |batches|);
    CommittedKeys(base, batches, provider, order);
    forall w, i | 0 <= i < |batches| && w in BatchResult(provider, batches[i].words)
      ensures exists k :: 0 <= k < |order| && w in BatchResult(provider, batches[order[k]].words)
    {
      assert i in order;
      var k :| 0 <= k < |order| && order[k] == i;
    }
  }

  /** Under a schedule, every new key is a batched word. */
  lemma CommittedKeysAreWords(base: map<string, string>, batches: seq<Batch>, provider: BatchProvider, order: seq<nat>)
    requires IsSchedule(order, |batches|)
    ensures InRange(order, |batches|)
    ensures forall w :: w in Committed(base, batches, provider, order) ==> w in base || w in BatchedWords(batches)
  {
    CommittedKeysOfSchedule(base, batches, provider, order);
    forall w, i | 0 <= i < |batches| && w in BatchResult(provider, batches[i].words)
      ensures w in BatchedWords(batches)
    {
      InBatchedWords(batches, i);
    }
  }

  /** Under a schedule of batches cut from a list without duplicates, a returned word keeps its own batch's value. */
  lemma CommittedValueOfSchedule(base: map<string, string>, batches: seq<Batch>, provider: BatchProvider, order: seq<nat>, i: nat, w: string)
    requires IsSchedule(order, |batches|)
    requires Distinct(BatchedWords(batches))
    requires i < |batches| && w in BatchResult(provider, batches[i].words)
    ensures InRange(order, |batches|)
    ensures w in Committed(base, batches, provider, order)
    ensures Committed(base, batches, provider, order)[w] == BatchResult(provider, batches[i].words)[w]
  {
    ScheduleFacts(order, |batches|);
    DistinctBatchesAreDisjoint(batches);
    assert i in order;
    var k :| 0 <= k < |order| && order[k] == i;
    CommittedValue(base, batches, provider, order, k, w);
  }

  /** The words of the vocabulary the saved dictionary lacks, in file order: none of them saved. */
  function Pending(saved: map<string, string>, content: string): (pending: seq<string>)
    ensures |pending| <= |VocabularyWords(content)|
    ensures forall i :: 0 <= i < |pending| ==> pending[i] !in saved
  {
    Untranslated(VocabularyWords(content), saved)
  }

  /** The numbered batches a run translates: never more than the pending words. */
  function Plan(saved: map<string, string>, content: string, batchSize: nat): (plan: seq<Batch>)
    requires batchSize >= 1
    ensures |plan| <= |Pending(saved, content)|
  {
    BatchPlan(Pending(saved, content), batchSize)
  }

  /**
   * The dictionary file after `translate_and_update` with the words file
   * `content`: unchanged when no word is pending, otherwise the saved
   * dictionary updated by every batch's result in schedule order.
   */
  function Run(saved: map<string, string>, content: string, batchSize: nat, provider: BatchProvider, order: seq<nat>): (store: map<string, string>)
    requires batchSize >= 1
    requires IsSchedule(order, |Plan(saved, content, batchSize)|)
    ensures saved.Keys <= store.Keys
    ensures Pending(saved, content) == [] ==> store == saved
  {
    ScheduleFacts(order, |Plan(saved, content, batchSize)|);
    if Pending(saved, content) == [] then saved
    else Committed(saved, Plan(saved, content, batchSize), provider, order)
  }

  /** Every batched word is pending, so none is already in the saved dictionary. */
  lemma PlanWordsArePending(saved: map<string, string>, content: string, batchSize: nat)
    requires batchSize >= 1
    ensures BatchedWords(Plan(saved, content, batchSize)) == Pending(saved, content)
    ensures forall i, w :: 0 <= i < |Plan(saved, content, batchSize)| && w in Plan(saved, content, batchSize)[i].words ==>
      w in VocabularyWords(content) && w !in saved
  {
    var plan := Plan(saved, content, batchSize);
    BatchPlanShape(Pending(saved, content), batchSize, 1);
    UntranslatedMembers(VocabularyWords(content), saved);
    forall i | 0 <= i < |plan| {
      InBatchedWords(plan, i);
    }
  }

  /** A run never changes or removes a saved translation. */
  lemma RunKeepsSaved(saved: map<string, string>, content: string, batchSize: nat, provider: BatchProvider, order: seq<nat>)
    requires batchSize >= 1
    requires IsSchedule(order, |Plan(saved, content, batchSize)|)
    ensures forall w :: w in saved ==>
      w in Run(saved, content, batchSize, provider, order) && Run(saved, content, batchSize, provider, order)[w] == saved[w]
  {
    ScheduleFacts(order, |Plan(saved, content, batchSize)|);
    PlanWordsArePending(saved, content, batchSize);
    CommittedKeepsBase(saved, Plan(saved, content, batchSize), provider, order);
  }

  /**
   * After a run the dictionary holds the saved words and exactly the words
   * some batch's result returned, and so no word outside the saved
   * dictionary and the vocabulary.
   */
  lemma RunKeys(saved: map<string, string>, content: string, batchSize: nat, provider: BatchProvider, order: seq<nat>)
    requires batchSize >= 1
    requires IsSchedule(order, |Plan(saved, content, batchSize)|)
    ensures forall w :: w in Run(saved, content, batchSize, provider, order) <==>
      w in saved || exists i :: (0 <= i < |Plan(saved, content, batchSize)| &&
        w in BatchResult(provider, Plan(saved, content, batchSize)[i].words))
    ensures forall w :: w in Run(saved, content, batchSize, provider, order) ==> w in saved || w in VocabularyWords(content)
  {
    PlanWordsArePending(saved, content, batchSize);
    UntranslatedMembers(VocabularyWords(content), saved);
    CommittedKeysOfSchedule(saved, Plan(saved, content, batchSize), provider, order);
    CommittedKeysAreWords(saved, Plan(saved, content, batchSize), provider, order);
  }

  /**
   * A word that no other batch holds ends with the value its own batch
   * returned, whatever the schedule.
   */
  lemma RunValue(saved: map<string, string>, content: string, batchSize: nat, provider: BatchProvider, order: seq<nat>, i: nat, w: string)
    requires batchSize >= 1
    requires IsSchedule(order, |Plan(saved, content, batchSize)|)
    requires i < |Plan(saved, content, batchSize)| && w in BatchResult(provider, Plan(saved, content, batchSize)[i].words)
    requires forall j :: 0 <= j < |Plan(saved, content, batchSize)| && j != i ==> w !in Plan(saved, content, batchSize)[j].words
    ensures w in Run(saved, content, batchSize, provider, order)
    ensures Run(saved, content, batchSize, provider, order)[w] == BatchResult(provider, Plan(saved, content, batchSize)[i].words)[w]
  {
    var plan := Plan(saved, content, batchSize);
    ScheduleFacts(order, |plan|);
    assert i in order;
    var k :| 0 <= k < |order| && order[k] == i;
    assert Run(saved, content, batchSize, provider, order) == Committed(saved, plan, provider, order);
    CommittedValueSoleBatch(saved, plan, provider, order, k, w);
  }

  /** In a vocabulary without duplicates, no word of a batch is in another batch. */
  lemma DistinctVocabularySoleBatch(saved: map<string, string>, content: string, batchSize: nat, i: nat, w: string)
    requires batchSize >= 1
    requires Distinct(VocabularyWords(content))
    requires i < |Plan(saved, content, batchSize)| && w in Plan(saved, content, batchSize)[i].words
    ensures forall j :: 0 <= j < |Plan(saved, content, batchSize)| && j != i ==> w !in Plan(saved, content, batchSize)[j].words
  {
    var plan := Plan(saved, content, batchSize);
    assert Distinct(BatchedWords(plan)) by {
      PlanWordsArePending(saved, content, batchSize);
      UntranslatedCounts(VocabularyWords(content), saved);
    }
    DistinctBatchesAreDisjoint(plan);
  }

  /** A word of a failed batch that no other batch holds is stored with the error marker. */
  lemma RunMarksFailedBatch(saved: map<string, string>, content: string, batchSize: nat, provider: BatchProvider, order: seq<nat>, i: nat, w: string)
    requires batchSize >= 1
    requires IsSchedule(order, |Plan(saved, content, batchSize)|)
    requires i < |Plan(saved, content, batchSize)|
    requires provider(JoinLines(Plan(saved, content, batchSize)[i].words)).None?
    requires w in Plan(saved, content, batchSize)[i].words
    requires forall j :: 0 <= j < |Plan(saved, content, batchSize)| && j != i ==> w !in Plan(saved, content, batchSize)[j].words
    ensures w in Run(saved, content, batchSize, provider, order)
    ensures Run(saved, content, batchSize, provider, order)[w] == ErrorMarker
  {
    var words := Plan(saved, content, batchSize)[i].words;
    assert BatchResult(provider, words) == ErrorMap(words);
    RunValue(saved, content, batchSize, provider, order, i, w);
  }

  /** Every batch's request failed or was answered with at least one line per word. */
  predicate AnswersComplete(provider: BatchProvider, batches: seq<Batch>)
  {
    forall i :: 0 <= i < |batches| ==> LineCountComplete(provider, batches[i].words)
  }

  /**
   * When every answer is complete, a run leaves no vocabulary word
   * untranslated, so running again on the new dictionary changes nothing.
   */
  lemma RunCompletesVocabulary(saved: map<string, string>, content: string, batchSize: nat, provider: BatchProvider, order: seq<nat>)
    requires batchSize >= 1
    requires IsSchedule(order, |Plan(saved, content, batchSize)|)
    requires AnswersComplete(provider, Plan(saved, content, batchSize))
    ensures Pending(Run(saved, content, batchSize, provider, order), content) == []
  {
    var plan := Plan(saved, content, batchSize);
    var final := Run(saved, content, batchSize, provider, order);
    RunKeepsSaved(saved, content, batchSize, provider, order);
    forall w | w in VocabularyWords(content) && w !in saved ensures w in final {
      PlanWordsArePending(saved, content, batchSize);
      UntranslatedMembers(VocabularyWords(content), saved);
      var i := BatchOfWord(plan, w);
      BatchResultCoversWords(provider, plan[i].words);
      RunKeys(saved, content, batchSize, provider, order);
    }
    UntranslatedAllStored(VocabularyWords(content), final);
  }

  /** With complete answers, a second run with the same words file leaves the dictionary as the first run left it. */
  lemma RunIsIdempotent(saved: map<string, string>, content: string, batchSize: nat, provider: BatchProvider, order: seq<nat>)
    requires batchSize >= 1
    requires IsSchedule(order, |Plan(saved, content, batchSize)|)
    requires AnswersComplete(provider, Plan(saved, content, batchSize))
    ensures var first := Run(saved, content, batchSize, provider, order);
      && IsSchedule([], |Plan(first, content, batchSize)|)
      && Run(first, content, batchSize, provider, []) == first
  {
    RunCompletesVocabulary(saved, content, batchSize, provider, order);
  }

  lemma {:induction false} DistinctWordsAtMostLength(s: seq<string>)
    ensures |set w | w in s| <= |s|
  {
    if |s| > 0 {
      var init := s[..|s| - 1];
      DistinctWordsAtMostLength(init);
      assert s == init + [s[|s| - 1]];
      assert (set w | w in s) == (set w | w in init) + {s[|s| - 1]};
    }
  }

  lemma SubsetAtMost(a: set<string>, b: set<string>)
    requires a <= b
    ensures |a| <= |b|
  {
    assert b == a + (b - a);
    assert a * (b - a) == {};
  }

  /**
   * The dictionary never holds more entries than the counter reaches: the
   * counter counts every pending word, duplicates and words a short answer
   * left out included.
   */
  lemma RunSizeAtMostCounter(saved: map<string, string>, content: string, batchSize: nat, provider: BatchProvider, order: seq<nat>)
    requires batchSize >= 1
    requires IsSchedule(order, |Plan(saved, content, batchSize)|)
    ensures |Run(saved, content, batchSize, provider, order)| <= |saved| + |Pending(saved, content)|
  {
    var final := Run(saved, content, batchSize, provider, order);
    var pending := set w | w in Pending(saved, content);
    RunKeys(saved, content, batchSize, provider, order);
    UntranslatedMembers(VocabularyWords(content), saved);
    assert final.Keys <= saved.Keys + pending;
    SubsetAtMost(final.Keys, saved.Keys + pending);
    DistinctWordsAtMostLength(Pending(saved, content));
    assert |saved.Keys + pending| <= |saved.Keys| + |pending|;
  }

  /** The shared state of a run: the dictionary file and the progress counter. */
  class SharedState {
    /** The dictionary stored in the output JSON file. */
    var store: map<string, string>
    /** The counter `shared_dict['completed']`. */
    var completed: nat

    constructor (saved: map<string, string>)
      ensures store == saved && completed == 0
    {
      store := saved;
      completed := 0;
    }

    /**
     * The locked section of the worker: `all_translations.update(translations)`
     * on the file's dictionary, then the counter grows by the batch's size.
     */
    method Commit(translations: map<string, string>, wordCount: nat)
      modifies this
      ensures store == Merged(old(store), translations)
      ensures completed == old(completed) + wordCount
    {
      store := Merged(store, translations);
      completed := completed + wordCount;
    }

    /** `translate_batch_worker`: translate one batch, then commit its result. */
    method Worker(batch: Batch, provider: BatchProvider) returns (translations: map<string, string>)
      modifies this
      ensures translations == BatchResult(provider, batch.words)
      ensures store == Merged(old(store), translations)
      ensures completed == old(completed) + |batch.words|
    {
      translations := TranslateBatch(batch.words, provider);
      Commit(translations, |batch.words|);
    }

    /** The pool: the workers of the batches named by `order` commit one after another. */
    method RunBatches(batches: seq<Batch>, provider: BatchProvider, order: seq<nat>)
      requires InRange(order, |batches|)
      modifies this
      ensures store == Committed(old(store), batches, provider, order)
      ensures completed == old(completed) + CommittedWords(batches, order)
    {
      for k := 0 to |order|
        invariant store == Committed(old(store), batches, provider, order[..k])
        invariant completed == old(completed) + CommittedWords(batches, order[..k])
      {
        assert order[..k + 1][..k] == order[..k];
        var _ := Worker(batches[order[k]], provider);
      }
      assert order[..|order|] == order;
    }

    /**
     * `translate_and_update` on the words file `content`: find the pending
     * words, return at once when there are none, otherwise set the counter
     * to the number of saved translations, cut the batches and run them.
     */
    method TranslateAndUpdate(content: string, batchSize: nat, provider: BatchProvider, order: seq<nat>)
      requires batchSize >= 1
      requires IsSchedule(order, |Plan(store, content, batchSize)|)
      modifies this
      ensures store == Run(old(store), content, batchSize, provider, order)
      ensures Pending(old(store), content) == [] ==> completed == old(completed)
      ensures Pending(old(store), content) != [] ==> completed == |old(store)| + |Pending(old(store), content)|
    {
      var allWords := VocabularyWords(content);
      var untranslated := Untranslated(allWords, store);
      if untranslated == [] {
        return;
      }
      var batches := PartitionBatches(untranslated, batchSize);
      completed := |store|;
      BatchPlanShape(untranslated, batchSize, 1);
      CommittedWordsOfSchedule(batches, order);
      RunBatches(batches, provider, order);
    }
  }
}
