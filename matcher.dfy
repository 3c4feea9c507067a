/** The fuzzy matcher `isMatching` and the filtered view of the catalog it induces.
    Positions are counted in characters: a candidate is a sequence of runes, one position each. */
module Matcher {
  import opened Subsequences
  import Slices

  /** strings.IndexRune: the position of the first occurrence of `c` in `s`, or -1. */
  function IndexRune(s: string, c: char): (pos: int)
    ensures -1 <= pos < |s|
    ensures pos == -1 <==> c !in s
    ensures pos >= 0 ==> s[pos] == c && forall k :: 0 <= k < pos ==> s[k] != c
  {
    if s == [] then -1
    else if s[0] == c then 0
    else
      var p := IndexRune(s[1..], c);
      if p == -1 then -1 else p + 1
  }

  /** isMatching as a recursion over the query: find the first occurrence of the next query
      character in what is left of the candidate, drop everything up to and including it,
      and fail as soon as a character is missing. */
  predicate Matches(cand: string, query: string): (r: bool)
    ensures r ==> |query| <= |cand|
  {
    if query == [] then true
    else
      var pos := IndexRune(cand, query[0]);
      if pos == -1 then false else Matches(cand[pos + 1..], query[1..])
  }

  /** isMatching: the loop over the query text, narrowing the candidate as it goes. */
  method IsMatching(cand: string, text: string) returns (ok: bool)
    ensures ok == Matches(cand, text)
    ensures ok <==> IsSubsequence(text, cand)
  {
    MatchesIffSubsequence(cand, text);
    var a := cand;
    for i := 0 to |text|
      invariant Matches(cand, text) == Matches(a, text[i..])
    {
      assert text[i..][1..] == text[i + 1..];
      var pos := IndexRune(a, text[i]);
      if pos == -1 {
        return false;
      }
      a := a[pos + 1..];
    }
    return true;
  }

  /** A match of the first query element at `pos`, followed by an embedding of the rest of the
      query after `pos`, embeds the whole query. */
  lemma EmbeddingPrependFirst<T>(tail: seq<int>, q: seq<T>, s: seq<T>, pos: int)
    requires q != [] && 0 <= pos < |s| && s[pos] == q[0]
    requires IsEmbedding(tail, q[1..], s[pos + 1..])
    ensures IsSubsequence(q, s)
  {
    var rest := s[pos + 1..];
    var idx := [pos] + seq(|tail|, k requires 0 <= k < |tail| => tail[k] + pos + 1);
    forall k | 0 <= k < |idx|
      ensures 0 <= idx[k] < |s| && s[idx[k]] == q[k]
    {
      if k > 0 {
        assert s[idx[k]] == rest[tail[k - 1]];
      }
    }
    assert IsEmbedding(idx, q, s);
  }

  /** Greedy matching only succeeds on a genuine subsequence. */
  lemma {:induction false} MatchesSound(cand: string, query: string)
    requires Matches(cand, query)
    ensures IsSubsequence(query, cand)
  {
    if query == [] {
      assert IsEmbedding([], query, cand);
    } else {
      var pos := IndexRune(cand, query[0]);
      MatchesSound(cand[pos + 1..], query[1..]);
      var tail :| IsEmbedding(tail, query[1..], cand[pos + 1..]);
      EmbeddingPrependFirst(tail, query, cand, pos);
    }
  }

  /** Dropping the first matched position from an embedding, and everything of `s` up to
      some `pos` at or before it, leaves an embedding of the rest of the query. */
  lemma EmbeddingDropFirst<T>(idx: seq<int>, q: seq<T>, s: seq<T>, pos: int)
    requires IsEmbedding(idx, q, s) && q != []
    requires 0 <= pos <= idx[0]
    ensures IsSubsequence(q[1..], s[pos + 1..])
  {
    var rest := s[pos + 1..];
    var tail := seq(|idx| - 1, k requires 0 <= k < |idx| - 1 => idx[k + 1] - pos - 1);
    forall k | 0 <= k < |tail|
      ensures 0 <= tail[k] < |rest| && rest[tail[k]] == q[1..][k]
    {
      assert idx[0] < idx[k + 1];
    }
    forall i, j | 0 <= i < j < |tail|
      ensures tail[i] < tail[j]
    {
      assert idx[i + 1] < idx[j + 1];
    }
    assert IsEmbedding(tail, q[1..], rest);
  }

  /** Taking the first occurrence never loses a match: every subsequence is found greedily. */
  lemma {:induction false} MatchesComplete(cand: string, query: string)
    requires IsSubsequence(query, cand)
    ensures Matches(cand, query)
  {
    if query != [] {
      var idx :| IsEmbedding(idx, query, cand);
      assert cand[idx[0]] == query[0];
      var pos := IndexRune(cand, query[0]);
      assert pos <= idx[0];
      EmbeddingDropFirst(idx, query, cand, pos);
      MatchesComplete(cand[pos + 1..], query[1..]);
    }
  }

  /** isMatching holds exactly when the query text is a subsequence of the candidate:
      case-sensitive, character by character, in order. */
  lemma MatchesIffSubsequence(cand: string, query: string)
    ensures Matches(cand, query) <==> IsSubsequence(query, cand)
  {
    if Matches(cand, query) {
      MatchesSound(cand, query);
    }
    if IsSubsequence(query, cand) {
      MatchesComplete(cand, query);
    }
  }

  /** `MatchesIffSubsequence` for every candidate at once. */
  lemma MatchesIffSubsequenceAll(query: string)
    ensures forall cand :: Matches(cand, query) <==> IsSubsequence(query, cand)
  {
    forall cand {
      MatchesIffSubsequence(cand, query);
    }
  }

  /** The callback handed to Filter: isMatching, reading the query `text`. */
  function MatcherFor(text: string): (r: string -> bool)
    ensures forall cand :: r(cand) <==> IsSubsequence(text, cand)
  {
    MatchesIffSubsequenceAll(text);
    cand => Matches(cand, text)
  }

  /** The filtered view: the notes that match `text`, in catalog order. */
  function View(notes: seq<string>, text: string): (r: seq<string>)
    ensures |r| <= |notes|
    ensures forall i :: 0 <= i < |r| ==> IsSubsequence(text, r[i])
  {
    Slices.Filtered(notes, MatcherFor(text))
  }

  /** A note is in the view exactly when it is in the catalog and the query is a subsequence of it. */
  lemma ViewMembers(notes: seq<string>, text: string, note: string)
    ensures note in View(notes, text) <==> note in notes && IsSubsequence(text, note)
  {
    Slices.FilterMembers(notes, MatcherFor(text), note);
    MatchesIffSubsequence(note, text);
  }

  /** The view keeps exactly the catalog positions whose note matches, in catalog order. */
  lemma ViewKeepsExactly(notes: seq<string>, text: string)
    ensures Slices.KeepsExactly(View(notes, text), notes, MatcherFor(text))
    ensures |View(notes, text)| <= |notes|
  {
    Slices.FilterKeepsExactly(notes, MatcherFor(text));
  }

  /** An empty query matches every note, so the view is the whole catalog: this is why
      clearing the query may set the view to the catalog without filtering. */
  lemma ViewEmptyQuery(notes: seq<string>)
    ensures View(notes, []) == notes
  {
    Slices.FilterKeepsAll(notes, MatcherFor([]));
  }

  /** Filtering the view again with the same query changes nothing. */
  lemma ViewIdempotent(notes: seq<string>, text: string)
    ensures Slices.Filtered(View(notes, text), MatcherFor(text)) == View(notes, text)
  {
    Slices.FilterIdempotent(notes, MatcherFor(text));
  }

  /** The worked example: over the catalog "alpha.n", "beta.n", "abcx.n", the query "ab" keeps
      only "abcx.n" (no 'b' in "alpha.n"; in "beta.n" the 'b' comes before the 'a'), and "a"
      keeps all three. */
  lemma ExampleViews(notes: seq<string>)
    requires |notes| == 3 && notes[0] == "alpha.n" && notes[1] == "beta.n" && notes[2] == "abcx.n"
    ensures View(notes, "") == notes
    ensures View(notes, "ab") == [notes[2]]
    ensures View(notes, "a") == notes
  {
    ViewEmptyQuery(notes);
    ExampleQueryAb(notes);
    ExampleQueryA(notes);
  }

  lemma ExampleQueryAb(notes: seq<string>)
    requires |notes| == 3 && notes[0] == "alpha.n" && notes[1] == "beta.n" && notes[2] == "abcx.n"
    ensures View(notes, "ab") == [notes[2]]
  {
    ExampleAlpha(notes[0]);
    ExampleBeta(notes[1]);
    ExampleAbcx(notes[2]);
    ExampleThree(notes, "ab");
  }

  lemma ExampleQueryA(notes: seq<string>)
    requires |notes| == 3 && notes[0] == "alpha.n" && notes[1] == "beta.n" && notes[2] == "abcx.n"
    ensures View(notes, "a") == notes
  {
    ExampleAlpha(notes[0]);
    ExampleBeta(notes[1]);
    ExampleAbcx(notes[2]);
    ExampleThree(notes, "a");
    SplitThree(notes);
  }

  lemma SplitThree<T>(s: seq<T>)
    requires |s| == 3
    ensures s == [s[0]] + [s[1]] + [s[2]]
  {
  }

  lemma ExampleAlpha(alpha: string)
    requires alpha == "alpha.n"
    ensures Matches(alpha, "a") && !Matches(alpha, "ab")
  {
    assert IndexRune(alpha, 'a') == 0;
    assert "a"[1..] == [] && "ab"[1..] == "b";
    assert IndexRune(alpha[1..], 'b') == -1;
  }

  lemma ExampleBeta(beta: string)
    requires beta == "beta.n"
    ensures Matches(beta, "a") && !Matches(beta, "ab")
  {
    assert IndexRune(beta, 'a') == 3;
    assert "a"[1..] == [] && "ab"[1..] == "b";
    assert IndexRune(beta[4..], 'b') == -1;
  }

  lemma ExampleAbcx(abcx: string)
    requires abcx == "abcx.n"
    ensures Matches(abcx, "a") && Matches(abcx, "ab")
  {
    assert IndexRune(abcx, 'a') == 0;
    assert "a"[1..] == [] && "ab"[1..] == "b" && "b"[1..] == [];
    assert IndexRune(abcx[1..], 'b') == 0;
  }

  /** Unfolds the view of a three-note catalog into one decision per note. */
  lemma ExampleThree(notes: seq<string>, text: string)
    requires |notes| == 3
    ensures View(notes, text) ==
      (if Matches(notes[0], text) then [notes[0]] else []) +
      (if Matches(notes[1], text) then [notes[1]] else []) +
      (if Matches(notes[2], text) then [notes[2]] else [])
  {
    var cb := MatcherFor(text);
    var one, two := [notes[0]], [notes[0], notes[1]];
    assert one[..0] == [] && two[..1] == one && notes[..2] == two;
    assert Slices.Filtered(one, cb) == (if cb(notes[0]) then [notes[0]] else []);
    assert Slices.Filtered(two, cb) == Slices.Filtered(one, cb) + (if cb(notes[1]) then [notes[1]] else []);
    assert Slices.Filtered(notes, cb) == Slices.Filtered(two, cb) + (if cb(notes[2]) then [notes[2]] else []);
  }
}
