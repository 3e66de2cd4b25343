/** Model of `match_resumes` (backend/utils/matcher.py): guard the inputs,
    preprocess the job text and the resumes into one corpus, obtain one
    similarity score per resume from the TF-IDF/cosine step (a parameter),
    pair each name with its score and sort the pairs stably by descending
    score, in place. */
module Matcher {
  import opened Preprocess

  /** One entry of the result list: `{"name": ..., "score": ...}`. */
  datatype MatchResult = MatchResult(name: string, score: real)

  /** The exceptions that leave `match_resumes`: a `ValueError` with its
      message, or any other exception (an `IndexError`, a library failure). */
  datatype Raised = ValueError(message: string) | InternalError

  /** What the TF-IDF fit and the cosine step produce for a corpus: the row
      `cosine_similarity(job_vector, resume_vectors)[0]`, or the exception
      scikit-learn raises. */
  datatype Scoring = Scores(values: seq<real>) | Raises(error: Raised)

  /** `TfidfVectorizer().fit_transform` followed by `cosine_similarity` of
      row 0 against the remaining rows, as an uninterpreted function of the
      corpus. */
  type Similarity = seq<string> -> Scoring

  /** What `match_resumes` returns or raises. */
  datatype Outcome = Ranked(results: seq<MatchResult>) | Failed(error: Raised)

  const LengthMismatch: string := "resume_texts and resume_names must have the same length"

  /** The corpus that is vectorised: the preprocessed job text is row 0 and
      the preprocessed resume `i` is row `i + 1`. */
  function Corpus(texts: seq<string>, job: string, nlp: Nlp): (corpus: seq<string>)
    ensures |corpus| == |texts| + 1
    ensures corpus[0] == Preprocessed(job, nlp)
    ensures forall i :: 0 <= i < |texts| ==> corpus[i + 1] == Preprocessed(texts[i], nlp)
  {
    [Preprocessed(job, nlp)] + seq(|texts|, i requires 0 <= i < |texts| => Preprocessed(texts[i], nlp))
  }

  /** The unsorted `results` list: entry `i` pairs `names[i]` with `scores[i]`. */
  function Pair(names: seq<string>, scores: seq<real>): (pairs: seq<MatchResult>)
    requires |names| <= |scores|
    ensures |pairs| == |names|
    ensures forall i :: 0 <= i < |pairs| ==> pairs[i].name == names[i] && pairs[i].score == scores[i]
  {
    seq(|names|, i requires 0 <= i < |names| => MatchResult(names[i], scores[i]))
  }

  function NamesOf(s: seq<MatchResult>): seq<string> {
    seq(|s|, i requires 0 <= i < |s| => s[i].name)
  }

  // ---------------------------------------------------------------------
  // The stable descending sort of line 58

  /** Scores never increase from first to last. */
  predicate SortedDesc(s: seq<MatchResult>) {
    forall i, j :: 0 <= i < j < |s| ==> s[i].score >= s[j].score
  }

  /** The entries whose score is `v`, in their order in `s`. A sort is
      stable iff it leaves each of these subsequences as it was. */
  function WithScore(s: seq<MatchResult>, v: real): seq<MatchResult>
    decreases |s|
  {
    if s == [] then []
    else (if s[0].score == v then [s[0]] else []) + WithScore(s[1..], v)
  }

  /** Insert `x` into `s` from the right: it passes every entry of lower
      score and stops behind the first entry, from the right, whose score
      is at least its own. */
  function Insert(s: seq<MatchResult>, x: MatchResult): seq<MatchResult>
    decreases |s|
  {
    if s == [] || s[|s| - 1].score >= x.score then s + [x]
    else Insert(s[..|s| - 1], x) + [s[|s| - 1]]
  }

  /** Insertion sort, descending by score: what `list.sort(key=score,
      reverse=True)` produces. */
  function SortDesc(s: seq<MatchResult>): seq<MatchResult>
    decreases |s|
  {
    if s == [] then [] else Insert(SortDesc(s[..|s| - 1]), s[|s| - 1])
  }

  /** `results.sort(key=lambda x: x["score"], reverse=True)`: an insertion
      sort of the array in place. */
  method SortByScore(a: array<MatchResult>)
    modifies a
    ensures a[..] == SortDesc(old(a[..]))
  {
    ghost var input := a[..];
    var i := 0;
    while i < a.Length
      invariant 0 <= i <= a.Length
      invariant a[..i] == SortDesc(input[..i])
      invariant a[i..] == input[i..]
    {
      assert a[i] == input[i];
      InsertLast(a, i);
      assert input[..i + 1][..i] == input[..i];
      assert a[i + 1..] == input[i + 1..];
      i := i + 1;
    }
    assert input[..a.Length] == input;
  }

  /** One pass of the insertion sort: `a[i]` moves left past every entry of
      strictly lower score, which shift one place right. */
  method InsertLast(a: array<MatchResult>, i: nat)
    requires i < a.Length
    modifies a
    ensures a[..i + 1] == Insert(old(a[..i]), old(a[i]))
    ensures a[i + 1..] == old(a[i + 1..])
  {
    var key := a[i];
    ghost var done := a[..i];
    ghost var rest := a[i + 1..];
    assert a[..] == done[..i] + [key] + done[i..] + rest;
    assert done[..i] == done && done[i..] == [];
    var j := i;
    while j > 0 && a[j - 1].score < key.score
      invariant 0 <= j <= i
      invariant a[..] == done[..j] + [a[j]] + done[j..] + rest
      invariant Insert(done, key) == Insert(done[..j], key) + done[j..]
    {
      InsertStep(done, key, j);
      ShiftStep(done, rest, j, a[j]);
      a[j] := a[j - 1];
      j := j - 1;
    }
    InsertStop(done, key, j);
    Place(done, rest, j, a[j], key);
    a[j] := key;
  }

  lemma ShiftStep(done: seq<MatchResult>, rest: seq<MatchResult>, j: nat, x: MatchResult)
    requires 0 < j <= |done|
    ensures var s := done[..j] + [x] + done[j..] + rest;
            s[j - 1] == done[j - 1] &&
            s[j := s[j - 1]] == done[..j - 1] + [done[j - 1]] + done[j - 1..] + rest
  {
  }

  lemma Place(done: seq<MatchResult>, rest: seq<MatchResult>, j: nat, x: MatchResult, key: MatchResult)
    requires j <= |done|
    ensures var s := (done[..j] + [x] + done[j..] + rest)[j := key];
            s[..|done| + 1] == done[..j] + [key] + done[j..] &&
            s[|done| + 1..] == rest
  {
  }

  lemma InsertStop(done: seq<MatchResult>, key: MatchResult, j: nat)
    requires j <= |done| && (j == 0 || done[j - 1].score >= key.score)
    ensures Insert(done[..j], key) == done[..j] + [key]
  {
  }

  lemma InsertStep(done: seq<MatchResult>, key: MatchResult, j: nat)
    requires 0 < j <= |done| && done[j - 1].score < key.score
    ensures Insert(done[..j], key) + done[j..] == Insert(done[..j - 1], key) + done[j - 1..]
  {
    assert done[..j][..j - 1] == done[..j - 1];
    assert done[j - 1..] == [done[j - 1]] + done[j..];
  }

  lemma {:induction false} InsertPermutes(s: seq<MatchResult>, x: MatchResult)
    ensures multiset(Insert(s, x)) == multiset(s) + multiset{x}
    decreases |s|
  {
    if s != [] && s[|s| - 1].score < x.score {
      var n := |s| - 1;
      InsertPermutes(s[..n], x);
      assert s == s[..n] + [s[n]];
    }
  }

  /** A lower bound on every score survives insertion of an entry that
      respects it. */
  lemma {:induction false} InsertBounded(s: seq<MatchResult>, x: MatchResult, b: real)
    requires forall k :: 0 <= k < |s| ==> s[k].score >= b
    requires x.score >= b
    ensures forall k :: 0 <= k < |Insert(s, x)| ==> Insert(s, x)[k].score >= b
    decreases |s|
  {
    if s != [] && s[|s| - 1].score < x.score {
      InsertBounded(s[..|s| - 1], x, b);
    }
  }

  lemma {:induction false} InsertSorted(s: seq<MatchResult>, x: MatchResult)
    requires SortedDesc(s)
    ensures SortedDesc(Insert(s, x))
    decreases |s|
  {
    if s != [] && s[|s| - 1].score < x.score {
      var n := |s| - 1;
      InsertSorted(s[..n], x);
      InsertBounded(s[..n], x, s[n].score);
    }
  }

  lemma {:induction false} WithScoreAppend(a: seq<MatchResult>, b: seq<MatchResult>, v: real)
    ensures WithScore(a + b, v) == WithScore(a, v) + WithScore(b, v)
    decreases |a|
  {
    if a != [] {
      WithScoreAppend(a[1..], b, v);
      var head := if a[0].score == v then [a[0]] else [];
      assert (a + b)[0] == a[0];
      assert (a + b)[1..] == a[1..] + b;
      assert WithScore(a + b, v) == head + WithScore(a[1..] + b, v);
      assert WithScore(a, v) == head + WithScore(a[1..], v);
    } else {
      assert a + b == b;
    }
  }

  /** Inserting `x` appends it to its own score's subsequence and leaves
      every other score's subsequence alone: the entries `x` passes have a
      strictly lower score. */
  lemma {:induction false} InsertStable(s: seq<MatchResult>, x: MatchResult, v: real)
    ensures WithScore(Insert(s, x), v) == WithScore(s, v) + WithScore([x], v)
    decreases |s|
  {
    if s == [] || s[|s| - 1].score >= x.score {
      WithScoreAppend(s, [x], v);
    } else {
      var n := |s| - 1;
      InsertStable(s[..n], x, v);
      WithScoreAppend(Insert(s[..n], x), [s[n]], v);
      WithScoreAppend(s[..n], [s[n]], v);
      assert s == s[..n] + [s[n]];
    }
  }

  /** The sorted list is non-increasing in score. */
  lemma {:induction false} SortDescSorted(s: seq<MatchResult>)
    ensures SortedDesc(SortDesc(s))
    decreases |s|
  {
    if s != [] {
      SortDescSorted(s[..|s| - 1]);
      InsertSorted(SortDesc(s[..|s| - 1]), s[|s| - 1]);
    }
  }

  /** The sorted list is a permutation of the unsorted one. */
  lemma {:induction false} SortDescPermutes(s: seq<MatchResult>)
    ensures multiset(SortDesc(s)) == multiset(s)
    ensures |SortDesc(s)| == |s|
    decreases |s|
  {
    if s != [] {
      var n := |s| - 1;
      SortDescPermutes(s[..n]);
      InsertPermutes(SortDesc(s[..n]), s[n]);
      assert s == s[..n] + [s[n]];
      assert multiset(s) == multiset(s[..n]) + multiset{s[n]};
    }
  }

  /** Entries of equal score keep their relative order. */
  lemma {:induction false} SortDescStable(s: seq<MatchResult>, v: real)
    ensures WithScore(SortDesc(s), v) == WithScore(s, v)
    decreases |s|
  {
    if s != [] {
      var n := |s| - 1;
      SortDescStable(s[..n], v);
      InsertStable(SortDesc(s[..n]), s[n], v);
      WithScoreAppend(s[..n], [s[n]], v);
      assert s == s[..n] + [s[n]];
    }
  }

  lemma WithScorePrefix(s: seq<MatchResult>, v: real)
    requires s != [] && s[0].score == v
    ensures WithScore(s, v) == [s[0]] + WithScore(s[1..], v)
  {
  }

  lemma {:induction false} WithScoreMembers(s: seq<MatchResult>, v: real, x: MatchResult)
    ensures x in WithScore(s, v) <==> x in s && x.score == v
    decreases |s|
  {
    if s != [] {
      WithScoreMembers(s[1..], v, x);
      assert s == [s[0]] + s[1..];
    }
  }

  /** Two non-empty sorted lists with the same per-score subsequences start
      with the same entry, and their tails again have equal subsequences. */
  lemma SameHead(s: seq<MatchResult>, t: seq<MatchResult>)
    requires s != [] && t != []
    requires SortedDesc(s) && SortedDesc(t)
    requires forall v :: WithScore(s, v) == WithScore(t, v)
    ensures s[0] == t[0]
    ensures forall v :: WithScore(s[1..], v) == WithScore(t[1..], v)
  {
    var m := s[0].score;
    WithScoreMembers(t, m, s[0]);
    WithScoreMembers(s, t[0].score, t[0]);
    assert t[0].score == m;
    WithScorePrefix(s, m);
    WithScorePrefix(t, m);
    var ws := WithScore(s, m);
    assert ws[0] == s[0] && ws[1..] == WithScore(s[1..], m);
    assert ws[0] == t[0] && ws[1..] == WithScore(t[1..], m);
    forall v
      ensures WithScore(s[1..], v) == WithScore(t[1..], v)
    {
      if v != m {
        assert WithScore(s, v) == WithScore(s[1..], v);
        assert WithScore(t, v) == WithScore(t[1..], v);
      }
    }
  }

  lemma EmptyFilters(s: seq<MatchResult>, t: seq<MatchResult>)
    requires forall v :: WithScore(s, v) == WithScore(t, v)
    ensures s == [] <==> t == []
  {
    if s != [] {
      assert WithScore(s, s[0].score) != [];
    }
    if t != [] {
      assert WithScore(t, t[0].score) != [];
    }
  }

  /** Two lists sorted by descending score with the same subsequence for
      every score are equal: sortedness and stability determine the result. */
  lemma {:induction false} SortedStableUnique(s: seq<MatchResult>, t: seq<MatchResult>)
    requires SortedDesc(s) && SortedDesc(t)
    requires forall v :: WithScore(s, v) == WithScore(t, v)
    ensures s == t
    decreases |s| + |t|
  {
    EmptyFilters(s, t);
    if s != [] {
      SameHead(s, t);
      assert SortedDesc(s[1..]) && SortedDesc(t[1..]);
      SortedStableUnique(s[1..], t[1..]);
      assert s == [s[0]] + s[1..];
      assert t == [t[0]] + t[1..];
    }
  }

  /** `SortDesc` is the only stable descending sort: any list that is
      sorted by descending score and keeps, for every score, the input's
      entries of that score in their input order, is `SortDesc` of it. */
  lemma SortDescIsTheStableSort(s: seq<MatchResult>, t: seq<MatchResult>)
    requires SortedDesc(t)
    requires forall v :: WithScore(t, v) == WithScore(s, v)
    ensures t == SortDesc(s)
  {
    SortDescSorted(s);
    forall v
      ensures WithScore(t, v) == WithScore(SortDesc(s), v)
    {
      SortDescStable(s, v);
    }
    SortedStableUnique(t, SortDesc(s));
  }

  /** Sorting moves entries, not names: the names of the sorted list are the
      names of the unsorted one, each as often as before. */
  lemma {:induction false} InsertKeepsNames(s: seq<MatchResult>, x: MatchResult)
    ensures multiset(NamesOf(Insert(s, x))) == multiset(NamesOf(s)) + multiset{x.name}
    decreases |s|
  {
    if s == [] || s[|s| - 1].score >= x.score {
      assert NamesOf(s + [x]) == NamesOf(s) + [x.name];
    } else {
      var n := |s| - 1;
      InsertKeepsNames(s[..n], x);
      assert NamesOf(Insert(s[..n], x) + [s[n]]) == NamesOf(Insert(s[..n], x)) + [s[n].name];
      assert NamesOf(s) == NamesOf(s[..n]) + [s[n].name];
    }
  }

  lemma {:induction false} SortDescKeepsNames(s: seq<MatchResult>)
    ensures multiset(NamesOf(SortDesc(s))) == multiset(NamesOf(s))
    decreases |s|
  {
    if s != [] {
      var n := |s| - 1;
      SortDescKeepsNames(s[..n]);
      InsertKeepsNames(SortDesc(s[..n]), s[n]);
      assert NamesOf(s) == NamesOf(s[..n]) + [s[n].name];
    }
  }

  lemma PairNames(names: seq<string>, scores: seq<real>)
    requires |names| <= |scores|
    ensures NamesOf(Pair(names, scores)) == names
  {
  }

  // ---------------------------------------------------------------------
  // match_resumes

  /** What `match_resumes(texts, names, job)` returns or raises, given what
      the TF-IDF/cosine step does with the corpus. */
  function Ranking(texts: seq<string>, names: seq<string>, job: string, nlp: Nlp, similarity: Similarity): Outcome {
    if texts == [] || names == [] then Ranked([])
    else if |texts| != |names| then Failed(ValueError(LengthMismatch))
    else
      match similarity(Corpus(texts, job, nlp))
      case Raises(e) => Failed(e)
      case Scores(scores) =>
        // `similarity_scores[i]` raises IndexError when the row is short
        if |scores| < |names| then Failed(InternalError)
        else Ranked(SortDesc(Pair(names, scores)))
  }

  /** `match_resumes`: the guards, the corpus, the pairing comprehension and
      the in-place sort. */
  method MatchResumes(texts: seq<string>, names: seq<string>, job: string, nlp: Nlp, similarity: Similarity)
    returns (r: Outcome)
    ensures r == Ranking(texts, names, job, nlp, similarity)
  {
    if texts == [] || names == [] {
      return Ranked([]);
    }
    if |texts| != |names| {
      return Failed(ValueError(LengthMismatch));
    }
    var preprocessedResumes := seq(|texts|, i requires 0 <= i < |texts| => Preprocessed(texts[i], nlp));
    var preprocessedJob := Preprocessed(job, nlp);
    var allTexts := [preprocessedJob] + preprocessedResumes;
    var scoring := similarity(allTexts);
    if scoring.Raises? {
      return Failed(scoring.error);
    }
    var scores := scoring.values;
    if |scores| < |names| {
      return Failed(InternalError);
    }
    var results := Pair(names, scores);
    var a := new MatchResult[|results|](i requires 0 <= i < |results| => results[i]);
    assert a[..] == results;
    SortByScore(a);
    r := Ranked(a[..]);
  }

  /** An empty `resume_texts` or `resume_names` gives `[]` and no error,
      whatever the other list holds. */
  lemma RankingEmpty(texts: seq<string>, names: seq<string>, job: string, nlp: Nlp, similarity: Similarity)
    requires texts == [] || names == []
    ensures Ranking(texts, names, job, nlp, similarity) == Ranked([])
  {
  }

  /** Two non-empty lists of different lengths raise `ValueError`, before
      anything is preprocessed or scored. */
  lemma RankingLengthMismatch(texts: seq<string>, names: seq<string>, job: string, nlp: Nlp, similarity: Similarity)
    requires texts != [] && names != [] && |texts| != |names|
    ensures Ranking(texts, names, job, nlp, similarity) == Failed(ValueError(LengthMismatch))
  {
  }

  /** When the lists are non-empty and of equal length, the returned list is
      the stable descending sort of the pairs `(names[i], scores[i])`: it has
      one entry per name, is a permutation of the pairs, has non-increasing
      scores, and keeps equal-score entries in input order. Every exception
      comes from the scoring step. */
  lemma RankingSorted(texts: seq<string>, names: seq<string>, job: string, nlp: Nlp, similarity: Similarity)
    requires texts != [] && |texts| == |names|
    ensures match similarity(Corpus(texts, job, nlp))
            case Raises(e) => Ranking(texts, names, job, nlp, similarity) == Failed(e)
            case Scores(scores) =>
              if |scores| < |names| then Ranking(texts, names, job, nlp, similarity) == Failed(InternalError)
              else
                var results := Ranking(texts, names, job, nlp, similarity);
                var unsorted := Pair(names, scores);
                results.Ranked? &&
                |results.results| == |names| &&
                multiset(results.results) == multiset(unsorted) &&
                multiset(NamesOf(results.results)) == multiset(names) &&
                SortedDesc(results.results) &&
                (forall v :: WithScore(results.results, v) == WithScore(unsorted, v))
  {
    match similarity(Corpus(texts, job, nlp))
    case Raises(e) =>
    case Scores(scores) =>
      if |scores| >= |names| {
        var unsorted := Pair(names, scores);
        SortDescPermutes(unsorted);
        SortDescSorted(unsorted);
        SortDescKeepsNames(unsorted);
        PairNames(names, scores);
        forall v
          ensures WithScore(SortDesc(unsorted), v) == WithScore(unsorted, v)
        {
          SortDescStable(unsorted, v);
        }
      }
  }

  /** Before sorting, entry `i` is `names[i]` with the score of corpus row
      `i + 1`; after sorting, each returned entry is one of these pairs. */
  lemma RankedEntriesArePairs(texts: seq<string>, names: seq<string>, job: string, nlp: Nlp, similarity: Similarity, k: nat)
    requires Ranking(texts, names, job, nlp, similarity).Ranked?
    requires k < |Ranking(texts, names, job, nlp, similarity).results|
    ensures similarity(Corpus(texts, job, nlp)).Scores?
    ensures var scores := similarity(Corpus(texts, job, nlp)).values;
            exists i :: 0 <= i < |names| && i < |scores| &&
              Ranking(texts, names, job, nlp, similarity).results[k] == MatchResult(names[i], scores[i])
  {
    var results := Ranking(texts, names, job, nlp, similarity).results;
    var scores := similarity(Corpus(texts, job, nlp)).values;
    var unsorted := Pair(names, scores);
    SortDescPermutes(unsorted);
    assert results[k] in multiset(unsorted);
    var i :| 0 <= i < |unsorted| && unsorted[i] == results[k];
  }
}
