/**
 * The pure and loop-based parts of tools/trans_rest.py: translating one batch
 * of words with a single newline-joined request (`translate_batch`), reading
 * the vocabulary, keeping the words the store lacks, and cutting them into
 * numbered batches (`translate_and_update`).
 */
module BatchTranslator {
  import opened Wrappers
  import opened Strings

  /** The value stored for every word of a batch whose request failed. */
  const ErrorMarker: string := "[ERROR]"

  /** The remote translation service: for the joined request text, a translation or a failure. */
  type BatchProvider = string -> Option<string>

  function Min(a: nat, b: nat): nat
  {
    if a <= b then a else b
  }

  /**
   * The dictionary built by the first `n` turns of
   * `for original, translated in zip(words, translations)`. It has at most
   * `n` entries: a repeated word overwrites its earlier entry.
   */
  function Zipped(words: seq<string>, lines: seq<string>, n: nat): (m: map<string, string>)
    requires n <= |words| && n <= |lines|
    ensures |m| <= n
  {
    if n == 0 then map[]
    else Zipped(words, lines, n - 1)[words[n - 1] := Strip(lines[n - 1])]
  }

  /** After `n` turns the keys are exactly the first `n` words. */
  lemma {:induction false} ZippedKeys(words: seq<string>, lines: seq<string>, n: nat)
    requires n <= |words| && n <= |lines|
    ensures Zipped(words, lines, n).Keys == set k | 0 <= k < n :: words[k]
  {
    if n > 0 {
      ZippedKeys(words, lines, n - 1);
      assert (set k | 0 <= k < n :: words[k]) == (set k | 0 <= k < n - 1 :: words[k]) + {words[n - 1]};
    }
  }

  /** A word whose last occurrence among the first `n` is at `k` maps to the stripped line `k`. */
  lemma {:induction false} ZippedValue(words: seq<string>, lines: seq<string>, n: nat, k: nat)
    requires k < n <= |words| && n <= |lines|
    requires forall j :: k < j < n ==> words[j] != words[k]
    ensures words[k] in Zipped(words, lines, n)
    ensures Zipped(words, lines, n)[words[k]] == Strip(lines[k])
  {
    if k < n - 1 {
      assert words[n - 1] != words[k];
      ZippedValue(words, lines, n - 1, k);
    }
  }

  /**
   * After `n` turns the keys are exactly the first `n` words, and a word maps
   * to the stripped line at the position of its LAST occurrence among them.
   */
  lemma ZippedKeysAndValues(words: seq<string>, lines: seq<string>, n: nat)
    requires n <= |words| && n <= |lines|
    ensures Zipped(words, lines, n).Keys == set k | 0 <= k < n :: words[k]
    ensures forall k :: 0 <= k < n && (forall j :: k < j < n ==> words[j] != words[k]) ==>
      Zipped(words, lines, n)[words[k]] == Strip(lines[k])
  {
    ZippedKeys(words, lines, n);
    forall k | 0 <= k < n && (forall j :: k < j < n ==> words[j] != words[k])
      ensures Zipped(words, lines, n)[words[k]] == Strip(lines[k])
    {
      ZippedValue(words, lines, n, k);
    }
  }

  /** The error dictionary `{word: '[ERROR]' for word in words}`. */
  function ErrorMap(words: seq<string>): (m: map<string, string>)
    ensures m.Keys == set w | w in words
    ensures forall w :: w in m ==> m[w] == ErrorMarker
  {
    map w | w in words :: ErrorMarker
  }

  /**
   * What `translate_batch` returns for the provider's answer `response`: a
   * dictionary keyed by words of the batch, holding `[ERROR]` for each word on
   * failure and at most one entry per answer line otherwise.
   */
  function BatchTranslation(words: seq<string>, response: Option<string>): (m: map<string, string>)
    ensures forall w :: w in m ==> w in words
    ensures response.None? ==> forall w :: w in m ==> m[w] == ErrorMarker
    ensures response.Some? ==> |m| <= |SplitLines(response.value)|
  {
    match response
    case None => ErrorMap(words)
    case Some(translated) =>
      var lines := SplitLines(translated);
      ZippedKeys(words, lines, Min(|words|, |lines|));
      Zipped(words, lines, Min(|words|, |lines|))
  }

  /** What `translate_batch(words)` returns when the provider is `provider`: every key is one of the words. */
  function BatchResult(provider: BatchProvider, words: seq<string>): (m: map<string, string>)
    ensures forall w :: w in m ==> w in words
  {
    BatchTranslation(words, provider(JoinLines(words)))
  }

  /**
   * When the provider answers with at least one line per word (or fails), the
   * dictionary has a key for every word of the batch.
   */
  lemma BatchResultCoversWords(provider: BatchProvider, words: seq<string>)
    requires LineCountComplete(provider, words)
    ensures BatchResult(provider, words).Keys == set w | w in words
  {
    var response := provider(JoinLines(words));
    if response.Some? {
      var lines := SplitLines(response.value);
      ZippedKeysAndValues(words, lines, |words|);
      assert (set k | 0 <= k < |words| :: words[k]) == set w | w in words by {
        forall w | w in words ensures w in set k | 0 <= k < |words| :: words[k] {
          var k :| 0 <= k < |words| && words[k] == w;
        }
      }
    }
  }

  /** The provider's answer for `words` fails or has at least as many lines as there are words. */
  predicate LineCountComplete(provider: BatchProvider, words: seq<string>)
  {
    match provider(JoinLines(words))
    case None => true
    case Some(translated) => |SplitLines(translated)| >= |words|
  }

  /**
   * `translate_batch(words)`: one request for the newline-joined words; on
   * success the answer's lines are stripped and paired with the words by
   * position, stopping at the shorter list; on failure every word gets the
   * error marker.
   */
  method TranslateBatch(words: seq<string>, provider: BatchProvider) returns (result: map<string, string>)
    ensures result == BatchResult(provider, words)
    ensures provider(JoinLines(words)).None? ==>
      result.Keys == (set w | w in words) && forall w :: w in result ==> result[w] == ErrorMarker
    ensures provider(JoinLines(words)).Some? ==>
      var lines := SplitLines(provider(JoinLines(words)).value);
      var n := Min(|words|, |lines|);
      && result.Keys == (set k | 0 <= k < n :: words[k])
      && forall k :: 0 <= k < n && (forall j :: k < j < n ==> words[j] != words[k]) ==>
           result[words[k]] == Strip(lines[k])
  {
    var textToTranslate := JoinLines(words);
    var response := provider(textToTranslate);
    if response.None? {
      return ErrorMap(words);
    }
    var translations := SplitLines(response.value);
    var n := Min(|words|, |translations|);
    result := map[];
    for i := 0 to n
      invariant result == Zipped(words, translations, i)
    {
      result := result[words[i] := Strip(translations[i])];
    }
    ZippedKeysAndValues(words, translations, n);
  }

  /**
   * The join/split round trip of a batch: when the provider sends the
   * request back unchanged, every word of a batch of vocabulary words maps to
   * itself and nothing else is a key.
   */
  lemma EchoedBatchMapsWordsToThemselves(provider: BatchProvider, content: string, words: seq<string>)
    requires |words| >= 1
    requires forall w :: w in words ==> w in VocabularyWords(content)
    requires provider(JoinLines(words)) == Some(JoinLines(words))
    ensures BatchResult(provider, words).Keys == set w | w in words
    ensures forall w :: w in words ==> BatchResult(provider, words)[w] == w
  {
    assert BatchResult(provider, words) == Zipped(words, words, |words|) by {
      CleanWords(content, words);
      SplitJoinLines(words);
    }
    assert forall i :: 0 <= i < |words| ==> Strip(words[i]) == words[i] by {
      CleanWords(content, words);
    }
    ZippedOwnStrip(words);
  }

  /** Zipping words that are their own `strip()` with themselves maps each word to itself. */
  lemma ZippedOwnStrip(words: seq<string>)
    requires forall i :: 0 <= i < |words| ==> Strip(words[i]) == words[i]
    ensures Zipped(words, words, |words|).Keys == set w | w in words
    ensures forall w :: w in words ==> Zipped(words, words, |words|)[w] == w
  {
    var result := Zipped(words, words, |words|);
    assert result.Keys == set w | w in words by {
      ZippedKeys(words, words, |words|);
      assert (set k | 0 <= k < |words| :: words[k]) == set w | w in words by {
        forall w | w in words ensures w in set k | 0 <= k < |words| :: words[k] {
          var k :| 0 <= k < |words| && words[k] == w;
        }
      }
    }
    forall w | w in words ensures result[w] == w {
      var k :| 0 <= k < |words| && words[k] == w;
      var last := LastIndex(words, k);
      ZippedValue(words, words, |words|, last);
    }
  }

  /** Vocabulary words have no newline and are their own `strip()`. */
  lemma CleanWords(content: string, words: seq<string>)
    requires forall w :: w in words ==> w in VocabularyWords(content)
    ensures forall i :: 0 <= i < |words| ==> '\n' !in words[i] && Strip(words[i]) == words[i]
  {
    var vocab := VocabularyWords(content);
    VocabularyWordsAreWords(content);
    forall i | 0 <= i < |words| ensures '\n' !in words[i] && Strip(words[i]) == words[i] {
      assert words[i] in vocab;
      var j :| 0 <= j < |vocab| && vocab[j] == words[i];
      StripTrimmed(words[i]);
    }
  }

  /** The index of the last occurrence of `words[k]`. */
  lemma {:induction false} LastIndex(words: seq<string>, k: nat) returns (last: nat)
    requires k < |words|
    ensures k <= last < |words| && words[last] == words[k]
    ensures forall j :: last < j < |words| ==> words[j] != words[last]
    decreases |words| - k
  {
    if exists j :: k < j < |words| && words[j] == words[k] {
      var j :| k < j < |words| && words[j] == words[k];
      last := LastIndex(words, j);
    } else {
      last := k;
    }
  }

  /** `[line.strip() for line in lines if line.strip()]`: at most one non-empty word per line. */
  function NonBlankStripped(lines: seq<string>): (words: seq<string>)
    ensures |words| <= |lines|
    ensures forall i :: 0 <= i < |words| ==> words[i] != ""
  {
    if |lines| == 0 then []
    else
      var word := Strip(lines[0]);
      (if word != "" then [word] else []) + NonBlankStripped(lines[1..])
  }

  /**
   * The vocabulary of a words file with text `content`: its lines, stripped,
   * blank ones dropped, in file order. Splitting at '\n' and stripping gives
   * the same words as iterating over the file's lines and stripping them.
   * There is at most one word per line.
   */
  function VocabularyWords(content: string): (words: seq<string>)
    ensures |words| <= |SplitLines(content)|
    ensures forall i :: 0 <= i < |words| ==> words[i] != ""
  {
    NonBlankStripped(SplitLines(content))
  }

  /**
   * Every vocabulary word is non-empty, has no white space at its ends and no
   * newline, so joining a batch with '\n' and splitting it again gives the
   * batch back.
   */
  lemma {:induction false} NonBlankStrippedWords(lines: seq<string>)
    requires forall i :: 0 <= i < |lines| ==> '\n' !in lines[i]
    ensures forall i :: 0 <= i < |NonBlankStripped(lines)| ==>
      var w := NonBlankStripped(lines)[i];
      && w != "" && '\n' !in w && !IsSpace(w[0]) && !IsSpace(w[|w| - 1])
  {
    if |lines| > 0 {
      NonBlankStrippedWords(lines[1..]);
      var word := Strip(lines[0]);
      StripRemovesSpace(lines[0]);
      NewlineFreeSlice(lines[0], StripStart(lines[0]), StripEnd(lines[0]));
      var rest := NonBlankStripped(lines[1..]);
      var all := NonBlankStripped(lines);
      forall i | 0 <= i < |all|
        ensures var w := all[i]; w != "" && '\n' !in w && !IsSpace(w[0]) && !IsSpace(w[|w| - 1])
      {
        if word != "" && i == 0 {
          assert all[0] == word;
        } else if word != "" {
          assert all[i] == rest[i - 1];
        } else {
          assert all[i] == rest[i];
        }
      }
    }
  }

  lemma VocabularyWordsAreWords(content: string)
    ensures forall i :: 0 <= i < |VocabularyWords(content)| ==>
      var w := VocabularyWords(content)[i];
      && w != "" && '\n' !in w && !IsSpace(w[0]) && !IsSpace(w[|w| - 1])
  {
    NonBlankStrippedWords(SplitLines(content));
  }

  /** `[w for w in words if w not in store]`: no longer than the words, and none of it stored. */
  function Untranslated(words: seq<string>, store: map<string, string>): (pending: seq<string>)
    ensures |pending| <= |words|
    ensures forall i :: 0 <= i < |pending| ==> pending[i] !in store
  {
    if |words| == 0 then []
    else (if words[0] !in store then [words[0]] else []) + Untranslated(words[1..], store)
  }

  /**
   * The filter keeps order: filtering a concatenation is concatenating the
   * filtered parts.
   */
  lemma {:induction false} UntranslatedOfConcat(a: seq<string>, b: seq<string>, store: map<string, string>)
    ensures Untranslated(a + b, store) == Untranslated(a, store) + Untranslated(b, store)
  {
    if |a| == 0 {
      assert a + b == b;
    } else {
      assert (a + b)[1..] == a[1..] + b;
      UntranslatedOfConcat(a[1..], b, store);
    }
  }

  /**
   * The filter keeps duplicates: a word the store lacks appears as often as
   * in the vocabulary, a word it has does not appear.
   */
  lemma {:induction false} UntranslatedCounts(words: seq<string>, store: map<string, string>)
    ensures forall w ::
      multiset(Untranslated(words, store))[w] == (if w in store then 0 else multiset(words)[w])
  {
    if |words| > 0 {
      UntranslatedCounts(words[1..], store);
      assert words == [words[0]] + words[1..];
    }
  }

  /** A word survives the filter exactly when it is in the vocabulary and not in the store. */
  lemma UntranslatedMembers(words: seq<string>, store: map<string, string>)
    ensures forall w :: w in Untranslated(words, store) <==> w in words && w !in store
  {
    UntranslatedCounts(words, store);
    forall w ensures w in Untranslated(words, store) <==> w in words && w !in store {
      assert w in Untranslated(words, store) <==> multiset(Untranslated(words, store))[w] > 0;
      assert w in words <==> multiset(words)[w] > 0;
    }
  }

  /** Nothing is left once the store has every word. */
  lemma {:induction false} UntranslatedAllStored(words: seq<string>, store: map<string, string>)
    requires forall w :: w in words ==> w in store
    ensures Untranslated(words, store) == []
  {
    if |words| > 0 {
      assert words[0] in words;
      UntranslatedAllStored(words[1..], store);
    }
  }

  /** A batch: its 1-based number and its words. */
  datatype Batch = Batch(number: nat, words: seq<string>)

  /** The batches of `words`, of `size` words each but the last, numbered from `number`. */
  function BatchPlanFrom(words: seq<string>, size: nat, number: nat): seq<Batch>
    requires size >= 1
    decreases |words|
  {
    if |words| == 0 then []
    else
      var n := Min(size, |words|);
      [Batch(number, words[..n])] + BatchPlanFrom(words[n..], size, number + 1)
  }

  /**
   * The batches `translate_and_update` builds, numbered from 1: none exactly
   * when there are no words, and never more batches than words.
   */
  function BatchPlan(words: seq<string>, size: nat): (bs: seq<Batch>)
    requires size >= 1
    ensures bs == [] <==> words == []
    ensures |bs| <= |words|
  {
    BatchPlanFromLength(words, size, 1);
    BatchPlanFrom(words, size, 1)
  }

  lemma {:induction false} BatchPlanFromLength(words: seq<string>, size: nat, number: nat)
    requires size >= 1
    ensures |BatchPlanFrom(words, size, number)| <= |words|
    decreases |words|
  {
    if |words| > 0 {
      BatchPlanFromLength(words[Min(size, |words|)..], size, number + 1);
    }
  }

  /** The batches' words, concatenated in batch order. */
  function BatchedWords(batches: seq<Batch>): seq<string>
  {
    if |batches| == 0 then [] else batches[0].words + BatchedWords(batches[1..])
  }

  /**
   * The batches are numbered consecutively, each holds between 1 and `size`
   * words, all but the last exactly `size`, and together, in order, they are
   * the words.
   */
  lemma {:induction false} BatchPlanShape(words: seq<string>, size: nat, number: nat)
    requires size >= 1
    ensures var bs := BatchPlanFrom(words, size, number);
      && BatchedWords(bs) == words
      && (forall k :: 0 <= k < |bs| ==> bs[k].number == number + k)
      && (forall k :: 0 <= k < |bs| ==> 1 <= |bs[k].words| <= size)
      && (forall k :: 0 <= k < |bs| - 1 ==> |bs[k].words| == size)
    decreases |words|
  {
    if |words| > 0 {
      var n := Min(size, |words|);
      var bs := BatchPlanFrom(words, size, number);
      var rest := BatchPlanFrom(words[n..], size, number + 1);
      BatchPlanShape(words[n..], size, number + 1);
      assert bs[1..] == rest;
      assert words[..n] + words[n..] == words;
      forall k | 1 <= k < |bs| ensures bs[k] == rest[k - 1] {
      }
    }
  }

  /** The words left after the first `i`, or none once `i` passes the end. */
  function Drop(words: seq<string>, i: nat): seq<string>
  {
    if i <= |words| then words[i..] else []
  }

  /** A multiple of `size` is at least `size` away from 0 unless the factor is 0. */
  lemma {:induction false} MulAwayFromZero(d: int, size: nat)
    requires size >= 1
    ensures d >= 1 ==> d * size >= size
    ensures d <= -1 ==> d * size <= -(size as int)
    decreases if d < 0 then -d else d
  {
    if d > 1 {
      MulAwayFromZero(d - 1, size);
      assert d * size == (d - 1) * size + size;
    } else if d < -1 {
      MulAwayFromZero(d + 1, size);
      assert d * size == (d + 1) * size - size;
    }
  }

  lemma DivExact(k: nat, size: nat)
    requires size >= 1
    ensures (k * size) / size == k
  {
    var q := (k * size) / size;
    var r := (k * size) % size;
    assert k * size == q * size + r;
    assert (k - q) * size == r;
    MulAwayFromZero(k - q, size);
  }

  /** What the partition loop keeps: `i` words are batched, and the rest will be batched from there. */
  predicate PartitionInvariant(untranslated: seq<string>, size: nat, batches: seq<Batch>, i: nat)
    requires size >= 1
  {
    && i == Offset(|batches|, size)
    && batches + BatchPlanFrom(Drop(untranslated, i), size, |batches| + 1) == BatchPlan(untranslated, size)
  }

  /** The batches from offset `i` on: the next slice, then the batches from `i + size`. */
  lemma PlanFromOffset(untranslated: seq<string>, size: nat, i: nat, number: nat)
    requires size >= 1 && i < |untranslated|
    ensures BatchPlanFrom(Drop(untranslated, i), size, number)
      == [Batch(number, untranslated[i..Min(i + size, |untranslated|)])]
         + BatchPlanFrom(Drop(untranslated, i + size), size, number + 1)
  {
    var rest := Drop(untranslated, i);
    assert untranslated[i..Min(i + size, |untranslated|)] == rest[..Min(size, |rest|)];
    assert Drop(untranslated, i + size) == rest[Min(size, |rest|)..];
  }

  /** The offset of batch `count`: `count` batches of `size` words. */
  function Offset(count: nat, size: nat): nat
  {
    if count == 0 then 0 else Offset(count - 1, size) + size
  }

  lemma {:induction false} OffsetIsProduct(count: nat, size: nat)
    ensures Offset(count, size) == count * size
  {
    if count > 0 {
      OffsetIsProduct(count - 1, size);
      assert count * size == (count - 1) * size + size;
    }
  }

  /** Batch `count`, at offset `count * size`, gets the number `count + 1`. */
  lemma NextOffset(count: nat, size: nat)
    requires size >= 1
    ensures Offset(count, size) / size + 1 == count + 1
  {
    OffsetIsProduct(count, size);
    DivExact(count, size);
  }

  /** One turn of the partition loop keeps its invariant. */
  lemma PartitionStep(untranslated: seq<string>, size: nat, batches: seq<Batch>, i: nat)
    requires size >= 1 && i < |untranslated|
    requires PartitionInvariant(untranslated, size, batches, i)
    ensures PartitionInvariant(untranslated, size,
      batches + [Batch(i / size + 1, untranslated[i..Min(i + size, |untranslated|)])], i + size)
  {
    var count := |batches|;
    var next := Batch(count + 1, untranslated[i..Min(i + size, |untranslated|)]);
    assert i / size + 1 == count + 1 by {
      NextOffset(count, size);
    }
    var later := BatchPlanFrom(Drop(untranslated, i + size), size, count + 2);
    assert BatchPlanFrom(Drop(untranslated, i), size, count + 1) == [next] + later by {
      PlanFromOffset(untranslated, size, i, count + 1);
    }
    assert batches + [next] + later == batches + ([next] + later);
  }

  /**
   * The loop `for i in range(0, len(untranslated), batch_size)` that appends
   * `(i // batch_size + 1, untranslated[i:i + batch_size])`.
   */
  method PartitionBatches(untranslated: seq<string>, batchSize: nat) returns (batches: seq<Batch>)
    requires batchSize >= 1
    ensures batches == BatchPlan(untranslated, batchSize)
  {
    batches := [];
    var i := 0;
    while i < |untranslated|
      invariant PartitionInvariant(untranslated, batchSize, batches, i)
      decreases |untranslated| - i
    {
      PartitionStep(untranslated, batchSize, batches, i);
      batches := batches + [Batch(i / batchSize + 1, untranslated[i..Min(i + batchSize, |untranslated|)])];
      i := i + batchSize;
    }
    assert Drop(untranslated, i) == [];
  }
}
