/**
 * The text chunk planner of pytrans.py: picking a cut point inside the first
 * `maxChars` characters of a text (`find_chunk_boundary`) and cutting a whole
 * text into an ordered list of chunks (`chunk_text`).
 */
module ChunkPlanner {
  import opened Wrappers
  import opened Strings

  /**
   * The breaking points, highest priority first, exactly as the code lists
   * them: the sentence ends are a mark followed by TWO spaces.
   */
  const Delimiters: seq<string> := ["\n", "\r\n", ".  ", "!  ", "?  ", "; ", ", ", " "]

  /**
   * The loop over the delimiters: the cut just after the last occurrence, at a
   * position above 0, of the first delimiter of `ds` that has such an
   * occurrence in `window`.
   */
  function DelimiterCut(window: string, ds: seq<string>): (r: Option<nat>)
    ensures r.Some? ==> 0 < r.value <= |window|
  {
    if |ds| == 0 then None
    else
      var lastPos := RFind(window, ds[0]);
      if lastPos > 0 then Some(lastPos + |ds[0]|) else DelimiterCut(window, ds[1..])
  }

  /** `find_chunk_boundary(text, max_chars)`. */
  function FindChunkBoundary(text: string, maxChars: nat): (b: nat)
    ensures |text| <= maxChars ==> b == |text|
    ensures maxChars < |text| ==> b <= maxChars
    ensures 1 <= maxChars < |text| ==> 1 <= b
  {
    if |text| <= maxChars then |text|
    else
      var searchArea := text[..maxChars];
      match DelimiterCut(searchArea, Delimiters)
      case Some(cut) => cut
      case None =>
        var lastSpace := RFind(searchArea, " ");
        if lastSpace > 0 then lastSpace + 1 else maxChars
  }

  /**
   * `d` occurs in `text` at a position above 0 and ends within the first
   * `maxChars` characters.
   */
  ghost predicate HasBreak(text: string, maxChars: nat, d: string)
  {
    exists p :: 0 < p && p + |d| <= maxChars && OccursAt(text, d, p)
  }

  /** Occurrences in the search area are the occurrences in the text that end inside it. */
  lemma WindowOccurrence(text: string, maxChars: nat, d: string, p: int)
    requires maxChars <= |text|
    ensures OccursAt(text[..maxChars], d, p) <==> p + |d| <= maxChars && OccursAt(text, d, p)
  {
    if 0 <= p && p + |d| <= maxChars {
      assert text[..maxChars][p..p + |d|] == text[p..p + |d|];
    }
  }

  /** The loop over `ds` returns the cut of the first delimiter that has a break in `window`. */
  lemma {:induction false} DelimiterCutFirst(window: string, ds: seq<string>, i: nat)
    requires i < |ds|
    requires RFind(window, ds[i]) > 0
    requires forall j :: 0 <= j < i ==> RFind(window, ds[j]) <= 0
    ensures DelimiterCut(window, ds) == Some(RFind(window, ds[i]) + |ds[i]|)
  {
    if i > 0 {
      assert RFind(window, ds[0]) <= 0;
      assert DelimiterCut(window, ds) == DelimiterCut(window, ds[1..]);
      assert ds[1..][i - 1] == ds[i];
      forall j | 0 <= j < i - 1 ensures RFind(window, ds[1..][j]) <= 0 {
        assert ds[1..][j] == ds[j + 1];
      }
      DelimiterCutFirst(window, ds[1..], i - 1);
    }
  }

  /** When no delimiter of `ds` has a break in `window`, the loop finds nothing. */
  lemma {:induction false} DelimiterCutNone(window: string, ds: seq<string>)
    requires forall j :: 0 <= j < |ds| ==> RFind(window, ds[j]) <= 0
    ensures DelimiterCut(window, ds) == None
  {
    if |ds| > 0 {
      assert RFind(window, ds[0]) <= 0;
      forall j | 0 <= j < |ds| - 1 ensures RFind(window, ds[1..][j]) <= 0 {
        assert ds[1..][j] == ds[j + 1];
      }
      DelimiterCutNone(window, ds[1..]);
    }
  }

  /** A delimiter has a break exactly when its `rfind` in the search area is above 0. */
  lemma HasBreakIffRFind(text: string, maxChars: nat, d: string)
    requires maxChars <= |text|
    ensures HasBreak(text, maxChars, d) <==> RFind(text[..maxChars], d) > 0
  {
    var w := text[..maxChars];
    if HasBreak(text, maxChars, d) {
      var p :| 0 < p && p + |d| <= maxChars && OccursAt(text, d, p);
      WindowOccurrence(text, maxChars, d, p);
    }
    if RFind(w, d) > 0 {
      WindowOccurrence(text, maxChars, d, RFind(w, d));
    }
  }

  /**
   * The priority rule: when `Delimiters[i]` is the first delimiter with a
   * break, the boundary falls just after its last occurrence that ends inside
   * the first `maxChars` characters, and that occurrence is at a position above 0.
   */
  lemma BoundaryAfterFirstBreakingDelimiter(text: string, maxChars: nat, i: nat)
    requires maxChars < |text|
    requires i < |Delimiters|
    requires HasBreak(text, maxChars, Delimiters[i])
    requires forall j :: 0 <= j < i ==> !HasBreak(text, maxChars, Delimiters[j])
    ensures var b, d := FindChunkBoundary(text, maxChars), Delimiters[i];
      && |d| < b <= maxChars
      && OccursAt(text, d, b - |d|)
      && forall q :: b - |d| < q && q + |d| <= maxChars ==> !OccursAt(text, d, q)
  {
    var w := text[..maxChars];
    var d := Delimiters[i];
    HasBreakIffRFind(text, maxChars, d);
    forall j | 0 <= j < i ensures RFind(w, Delimiters[j]) <= 0 {
      HasBreakIffRFind(text, maxChars, Delimiters[j]);
    }
    DelimiterCutFirst(w, Delimiters, i);
    var p := RFind(w, d);
    assert FindChunkBoundary(text, maxChars) == p + |d|;
    WindowOccurrence(text, maxChars, d, p);
    forall q | p < q && q + |d| <= maxChars ensures !OccursAt(text, d, q) {
      WindowOccurrence(text, maxChars, d, q);
    }
  }

  /**
   * The hard cut: when no listed delimiter has a break, the boundary is
   * exactly `maxChars`, whatever the space fallback after the loop would do.
   */
  lemma HardCutWithoutBreak(text: string, maxChars: nat)
    requires maxChars < |text|
    requires forall j :: 0 <= j < |Delimiters| ==> !HasBreak(text, maxChars, Delimiters[j])
    ensures FindChunkBoundary(text, maxChars) == maxChars
  {
    var w := text[..maxChars];
    forall j | 0 <= j < |Delimiters| ensures RFind(w, Delimiters[j]) <= 0 {
      HasBreakIffRFind(text, maxChars, Delimiters[j]);
    }
    DelimiterCutNone(w, Delimiters);
    assert Delimiters[7] == " ";
  }

  /** When the loop over `ds` finds nothing, no delimiter of `ds` has an `rfind` above 0. */
  lemma {:induction false} DelimiterCutNoneInverse(window: string, ds: seq<string>)
    requires DelimiterCut(window, ds) == None
    ensures forall j :: 0 <= j < |ds| ==> RFind(window, ds[j]) <= 0
  {
    if |ds| > 0 {
      DelimiterCutNoneInverse(window, ds[1..]);
      forall j | 1 <= j < |ds| ensures RFind(window, ds[j]) <= 0 {
        assert ds[j] == ds[1..][j - 1];
      }
    }
  }

  /**
   * The last-space fallback after the loop never decides anything: `' '` is
   * the last entry of the list, so whenever the loop finds nothing, the last
   * space in the search area is at position 0 or absent.
   */
  lemma SpaceFallbackUnreachable(searchArea: string)
    requires DelimiterCut(searchArea, Delimiters) == None
    ensures RFind(searchArea, " ") <= 0
  {
    DelimiterCutNoneInverse(searchArea, Delimiters);
    assert Delimiters[7] == " ";
  }

  /**
   * The `'\r\n'` entry never decides the boundary: a break at `'\r\n'` has a
   * newline right after the carriage return, so `'\n'`, which comes first in
   * the list, has a break too.
   */
  lemma CrLfNeverDecides(text: string, maxChars: nat)
    requires HasBreak(text, maxChars, "\r\n")
    ensures HasBreak(text, maxChars, "\n")
  {
    var p :| 0 < p && p + 2 <= maxChars && OccursAt(text, "\r\n", p);
    assert text[p..p + 2][1] == '\n';
    assert text[p + 1..p + 2] == "\n";
    assert OccursAt(text, "\n", p + 1);
  }

  /**
   * The chunks `chunk_text` produces: the remaining text when it fits, and
   * otherwise the text up to the boundary followed by the chunks of the rest.
   * There are no chunks exactly for the empty text, and never more chunks
   * than characters.
   */
  function Chunks(text: string, maxChars: nat): (chunks: seq<string>)
    requires maxChars >= 1
    ensures |text| == 0 <==> chunks == []
    ensures |chunks| <= |text|
    decreases |text|
  {
    if |text| == 0 then []
    else if |text| <= maxChars then [text]
    else
      var b := FindChunkBoundary(text, maxChars);
      [text[..b]] + Chunks(text[b..], maxChars)
  }

  /**
   * `chunks` is a plan for `text`: concatenated in order they give back the
   * text, and each is non-empty and at most `maxChars` long.
   */
  predicate CoversText(chunks: seq<string>, text: string, maxChars: nat)
  {
    && Concat(chunks) == text
    && forall i :: 0 <= i < |chunks| ==> 1 <= |chunks[i]| <= maxChars
  }

  /** The chunks cover the text without gap, overlap or reordering, each within the limit. */
  lemma {:induction false} ChunksCoverText(text: string, maxChars: nat)
    requires maxChars >= 1
    ensures CoversText(Chunks(text, maxChars), text, maxChars)
    decreases |text|
  {
    if maxChars < |text| {
      var b := FindChunkBoundary(text, maxChars);
      var cs := Chunks(text, maxChars);
      ChunksCoverText(text[b..], maxChars);
      assert cs[1..] == Chunks(text[b..], maxChars);
      assert text[..b] + text[b..] == text;
      forall i | 1 <= i < |cs| ensures 1 <= |cs[i]| <= maxChars {
        assert cs[i] == cs[1..][i - 1];
      }
    }
  }

  /**
   * `chunk_text(text, max_chars)`: the loop that cuts the remaining text at
   * the boundary until what is left fits. `pos` strictly increases, so the
   * loop ends; with `maxChars == 0` the source loops forever on a non-empty
   * text, which the precondition excludes.
   */
  method ChunkText(text: string, maxChars: nat) returns (chunks: seq<string>)
    requires maxChars >= 1
    ensures chunks == Chunks(text, maxChars)
    ensures CoversText(chunks, text, maxChars)
    ensures |text| == 0 <==> chunks == []
    ensures 0 < |text| <= maxChars ==> chunks == [text]
  {
    chunks := [];
    var pos := 0;
    while pos < |text|
      invariant 0 <= pos <= |text|
      invariant chunks + Chunks(text[pos..], maxChars) == Chunks(text, maxChars)
      decreases |text| - pos
    {
      var remaining := text[pos..];
      if |remaining| <= maxChars {
        chunks := chunks + [remaining];
        break;
      }
      var chunkEnd := FindChunkBoundary(remaining, maxChars);
      ChunksStep(text, pos, maxChars);
      chunks := chunks + [remaining[..chunkEnd]];
      pos := pos + chunkEnd;
    }
    assert chunks == Chunks(text, maxChars);
    ChunksCoverText(text, maxChars);
  }

  /** One turn of the loop: the chunks of `text[pos..]` are its first chunk and the chunks after it. */
  lemma ChunksStep(text: string, pos: nat, maxChars: nat)
    requires 1 <= maxChars && pos <= |text|
    ensures var remaining := text[pos..]; var b := FindChunkBoundary(remaining, maxChars);
      && pos + b <= |text|
      && (|remaining| <= maxChars ==> Chunks(remaining, maxChars) == [remaining] || remaining == [])
      && (maxChars < |remaining| ==>
            forall before: seq<string> :: (before + [remaining[..b]]) + Chunks(text[pos + b..], maxChars)
                                        == before + Chunks(remaining, maxChars))
  {
    var remaining := text[pos..];
    if maxChars < |remaining| {
      var b := FindChunkBoundary(remaining, maxChars);
      assert remaining[b..] == text[pos + b..];
    }
  }

  /**
   * On a text starting "Hello world. This is" (such as "Hello world. This is
   * a test sentence that is reasonably long.") with a limit of 20, that is the
   * search area. Its sentence end is a period and ONE space, which the
   * two-space entry does not match, so the cut falls after the last plain
   * space (position 17), not after the period.
   */
  lemma SentenceEndWithOneSpaceIsNotPreferred(text: string)
    requires 20 < |text| && text[..20] == "Hello world. This is"
    ensures FindChunkBoundary(text, 20) == 18
  {
    var w := text[..20];
    ExampleWindowFacts();
    FirstCharAbsent(w, "\n");
    FirstCharAbsent(w, "\r\n");
    FirstCharAbsent(w, "!  ");
    FirstCharAbsent(w, "?  ");
    FirstCharAbsent(w, "; ");
    FirstCharAbsent(w, ", ");
    forall q ensures !OccursAt(w, ".  ", q) {
      if OccursAt(w, ".  ", q) {
        OccurrenceHasChar(w, ".  ", q, 0);
        OccurrenceHasChar(w, ".  ", q, 2);
        assert false;
      }
    }
    forall q | 17 < q ensures !OccursAt(w, " ", q) {
      if OccursAt(w, " ", q) {
        OccurrenceHasChar(w, " ", q, 0);
        assert false;
      }
    }
    DelimiterCutFirst(w, Delimiters, 7);
  }

  /** The characters of the example search area that the proof above needs. */
  lemma ExampleWindowFacts()
    ensures var w := "Hello world. This is";
      && |w| == 20
      && '\n' !in w && '\r' !in w && '!' !in w && '?' !in w && ';' !in w && ',' !in w
      && (forall k :: 0 <= k < |w| && k != 11 ==> w[k] != '.')
      && w[13] == 'T' && w[17] == ' ' && w[18] == 'i' && w[19] == 's'
  {
  }

  /** An occurrence of `d` at `q` has `d`'s characters from `q` on. */
  lemma OccurrenceHasChar(s: string, d: string, q: int, k: int)
    requires OccursAt(s, d, q) && 0 <= k < |d|
    ensures s[q + k] == d[k]
  {
    assert s[q..q + |d|][k] == s[q + k];
  }

  /** A delimiter whose first character is absent from `s` does not occur in it. */
  lemma FirstCharAbsent(s: string, d: string)
    requires |d| >= 1 && d[0] !in s
    ensures forall q :: !OccursAt(s, d, q)
  {
    forall q ensures !OccursAt(s, d, q) {
      if OccursAt(s, d, q) {
        OccurrenceHasChar(s, d, q, 0);
        assert false;
      }
    }
  }
}
