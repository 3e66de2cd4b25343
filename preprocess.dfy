/** Model of `preprocess_text` (backend/utils/preprocess.py): lower-case the
    text, tokenize it, drop punctuation and stopword tokens, lemmatize the
    survivors and join them with single spaces. NLTK's tokenizer, lemmatizer
    and stopword list are parameters. */
module Preprocess {

  /** The NLTK collaborators of `preprocess_text`: `word_tokenize`,
      `WordNetLemmatizer.lemmatize` and `set(stopwords.words('english'))`.
      Nothing is assumed about them beyond their being functions. */
  datatype Nlp = Nlp(tokenize: string -> seq<string>, lemmatize: string -> string, stopWords: set<string>)

  /** Python's `string.punctuation`: the 32 ASCII punctuation characters. */
  const Punctuation: string := "!\"#$%&'()*+,-./:;<=>?@[\\]^_`{|}~"

  /** Python's `sub in s` for two strings: a substring test, not a test of
      each character. The empty string is a substring of every string. */
  predicate IsSubstring(sub: string, s: string) {
    exists i :: 0 <= i <= |s| && OccursAt(sub, s, i)
  }

  /** `sub` is the piece of `s` that starts at index `i`. */
  predicate OccursAt(sub: string, s: string, i: nat) {
    i + |sub| <= |s| && s[i..i + |sub|] == sub
  }

  /** `str.lower` on one character, restricted to ASCII letters. */
  function LowerChar(c: char): char {
    if 'A' <= c <= 'Z' then (c as int - 'A' as int + 'a' as int) as char else c
  }

  predicate IsUpper(c: char) {
    'A' <= c <= 'Z'
  }

  /** `str.lower`, restricted to ASCII letters. */
  function Lower(s: string): string {
    seq(|s|, i requires 0 <= i < |s| => LowerChar(s[i]))
  }

  /** The test of line 54, negated: a token is dropped when it occurs inside
      `string.punctuation` or is a stopword. */
  predicate Rejected(token: string, stopWords: set<string>): (r: bool)
    ensures token in stopWords ==> r
    ensures |token| > |Punctuation| ==> (r <==> token in stopWords)
  {
    IsSubstring(token, Punctuation) || token in stopWords
  }

  /** What the loop of lines 51-57 has appended after visiting `tokens`:
      every token that passes the filter, lemmatized, in order. */
  function Survivors(tokens: seq<string>, nlp: Nlp): seq<string>
    decreases |tokens|
  {
    if tokens == [] then []
    else
      var last := tokens[|tokens| - 1];
      Survivors(tokens[..|tokens| - 1], nlp)
        + (if Rejected(last, nlp.stopWords) then [] else [nlp.lemmatize(last)])
  }

  /** Python's `' '.join(parts)`. */
  function Join(parts: seq<string>): string
    decreases |parts|
  {
    if parts == [] then ""
    else if |parts| == 1 then parts[0]
    else parts[0] + " " + Join(parts[1..])
  }

  /** Python's `s.split(' ')`: the pieces between single spaces, empty pieces
      included, so that `"".split(' ') == [""]`. */
  function Split(s: string): (parts: seq<string>)
    ensures |parts| >= 1
    decreases |s|
  {
    if s == [] then [""]
    else
      var rest := Split(s[1..]);
      if s[0] == ' ' then [""] + rest
      else [[s[0]] + rest[0]] + rest[1..]
  }

  /** The value `preprocess_text(text)` returns. */
  function Preprocessed(text: string, nlp: Nlp): string {
    Join(Survivors(nlp.tokenize(Lower(text)), nlp))
  }

  /** `preprocess_text`: the loop appends each surviving token's lemma to
      `processed`, as the source appends to `processed_tokens`. */
  method PreprocessText(text: string, nlp: Nlp) returns (r: string)
    ensures r == Preprocessed(text, nlp)
  {
    var lowered := Lower(text);
    var tokens := nlp.tokenize(lowered);
    var processed: seq<string> := [];
    for i := 0 to |tokens|
      invariant processed == Survivors(tokens[..i], nlp)
    {
      var token := tokens[i];
      assert tokens[..i + 1][..i] == tokens[..i];
      if !IsSubstring(token, Punctuation) && token !in nlp.stopWords {
        var lemmatized := nlp.lemmatize(token);
        processed := processed + [lemmatized];
      }
    }
    assert tokens[..|tokens|] == tokens;
    r := Join(processed);
  }

  // ---------------------------------------------------------------------
  // Lower-casing

  /** After lowering no upper-case ASCII letter is left, non-letters are
      untouched, and lowering twice changes nothing more. */
  lemma LowerProperties(s: string)
    ensures |Lower(s)| == |s|
    ensures forall i :: 0 <= i < |s| ==> !IsUpper(Lower(s)[i])
    ensures forall i :: 0 <= i < |s| && !IsUpper(s[i]) ==> Lower(s)[i] == s[i]
    ensures forall i :: 0 <= i < |s| && IsUpper(s[i]) ==> Lower(s)[i] as int == s[i] as int + ('a' as int - 'A' as int)
    ensures Lower(Lower(s)) == Lower(s)
  {
  }

  /** The tokenizer only ever sees the lowered text: two texts that differ
      only in the case of ASCII letters preprocess alike. */
  lemma CaseInsensitive(a: string, b: string, nlp: Nlp)
    requires Lower(a) == Lower(b)
    ensures Preprocessed(a, nlp) == Preprocessed(b, nlp)
  {
  }

  // ---------------------------------------------------------------------
  // The punctuation test

  lemma PunctuationSize(c: char)
    ensures |Punctuation| == 32
    ensures c in Punctuation <==> ('!' <= c <= '/' || ':' <= c <= '@' || '[' <= c <= '`' || '{' <= c <= '~')
  {
  }

  /** `"()"` occurs in `string.punctuation` and is dropped whatever the
      stopwords are. */
  lemma ParenPairRejected(stopWords: set<string>)
    ensures Rejected("()", stopWords)
  {
    assert Punctuation[7] == '(' && Punctuation[8] == ')';
    assert OccursAt("()", Punctuation, 7);
  }

  /** `"!!"` does not occur in `string.punctuation` (only its first character
      is `!`), so unless it is a stopword it is kept. */
  lemma DoubleBangKept(stopWords: set<string>)
    requires "!!" !in stopWords
    ensures !Rejected("!!", stopWords)
  {
    BangOnlyFirst();
    NoDoubledChar(Punctuation, '!');
  }

  lemma BangOnlyFirst()
    ensures forall k :: 1 <= k < |Punctuation| ==> Punctuation[k] != '!'
  {
  }

  /** A character that occurs nowhere after the first position of `s` never
      appears twice in a row in `s`. */
  lemma NoDoubledChar(s: string, c: char)
    requires forall k :: 1 <= k < |s| ==> s[k] != c
    ensures !IsSubstring([c, c], s)
  {
    forall i: nat | i + 2 <= |s|
      ensures !OccursAt([c, c], s, i)
    {
      assert s[i..i + 2][1] == s[i + 1];
    }
  }

  /** Every single punctuation character is dropped, and so is the empty
      token. */
  lemma SingleCharactersRejected(c: char, stopWords: set<string>)
    requires c in Punctuation
    ensures Rejected([c], stopWords)
    ensures Rejected("", stopWords)
  {
    var i :| 0 <= i < |Punctuation| && Punctuation[i] == c;
    assert OccursAt([c], Punctuation, i);
    assert OccursAt("", Punctuation, 0);
  }

  // ---------------------------------------------------------------------
  // The filter-and-lemmatize loop

  /** The filter keeps order: survivors of a concatenation are the survivors
      of each part, concatenated. */
  lemma {:induction false} SurvivorsAppend(a: seq<string>, b: seq<string>, nlp: Nlp)
    ensures Survivors(a + b, nlp) == Survivors(a, nlp) + Survivors(b, nlp)
    decreases |b|
  {
    if b == [] {
      assert a + b == a;
    } else {
      var b' := b[..|b| - 1];
      assert (a + b)[..|a + b| - 1] == a + b';
      assert (a + b)[|a + b| - 1] == b[|b| - 1];
      SurvivorsAppend(a, b', nlp);
    }
  }

  /** One token on its own: dropped iff rejected, otherwise its lemma. */
  lemma SurvivorsSingle(t: string, nlp: Nlp)
    ensures Survivors([t], nlp) == if Rejected(t, nlp.stopWords) then [] else [nlp.lemmatize(t)]
  {
  }

  /** The tokens the filter keeps, in order, before lemmatization. */
  function Kept(tokens: seq<string>, stopWords: set<string>): seq<string>
    decreases |tokens|
  {
    if tokens == [] then []
    else (if Rejected(tokens[0], stopWords) then [] else [tokens[0]]) + Kept(tokens[1..], stopWords)
  }

  /** `Kept` is exactly the filter: it holds no rejected token, and each
      accepted token as many times as the input does. */
  lemma {:induction false} KeptIsFilter(tokens: seq<string>, stopWords: set<string>)
    ensures |Kept(tokens, stopWords)| <= |tokens|
    ensures forall t :: t in Kept(tokens, stopWords) ==> t in tokens && !Rejected(t, stopWords)
    ensures forall t :: !Rejected(t, stopWords) ==>
              multiset(Kept(tokens, stopWords))[t] == multiset(tokens)[t]
    decreases |tokens|
  {
    if tokens != [] {
      KeptIsFilter(tokens[1..], stopWords);
      assert tokens == [tokens[0]] + tokens[1..];
    }
  }

  /** The loop fuses filtering and lemmatizing: its output is the filter's
      output mapped through the lemmatizer, token by token. */
  lemma {:induction false} SurvivorsIsKeptLemmatized(tokens: seq<string>, nlp: Nlp)
    ensures |Survivors(tokens, nlp)| == |Kept(tokens, nlp.stopWords)|
    ensures forall i :: 0 <= i < |Survivors(tokens, nlp)| ==>
              Survivors(tokens, nlp)[i] == nlp.lemmatize(Kept(tokens, nlp.stopWords)[i])
    decreases |tokens|
  {
    if tokens != [] {
      SurvivorsIsKeptLemmatized(tokens[1..], nlp);
      assert tokens == [tokens[0]] + tokens[1..];
      SurvivorsAppend([tokens[0]], tokens[1..], nlp);
      SurvivorsSingle(tokens[0], nlp);
    }
  }

  /** At most one output token per tokenizer token. */
  lemma SurvivorsNoLonger(tokens: seq<string>, nlp: Nlp)
    ensures |Survivors(tokens, nlp)| <= |tokens|
  {
  }

  /** The filter looks at the token before it is lemmatized: an accepted
      token's lemma is in the output even when that lemma is a stopword or
      punctuation. */
  lemma {:induction false} FilterBeforeLemmatize(tokens: seq<string>, i: nat, nlp: Nlp)
    requires i < |tokens| && !Rejected(tokens[i], nlp.stopWords)
    ensures nlp.lemmatize(tokens[i]) in Survivors(tokens, nlp)
    decreases |tokens|
  {
    var n := |tokens| - 1;
    if i < n {
      FilterBeforeLemmatize(tokens[..n], i, nlp);
    }
  }

  /** A rejected token leaves no trace: if nothing is accepted, nothing is
      output. */
  lemma {:induction false} AllRejectedGivesNothing(tokens: seq<string>, nlp: Nlp)
    requires forall i :: 0 <= i < |tokens| ==> Rejected(tokens[i], nlp.stopWords)
    ensures Survivors(tokens, nlp) == []
    decreases |tokens|
  {
    if tokens != [] {
      AllRejectedGivesNothing(tokens[..|tokens| - 1], nlp);
    }
  }

  // ---------------------------------------------------------------------
  // The join

  /** `' '.join(parts) == ""` exactly when there is no part, or one empty part. */
  lemma JoinEmpty(parts: seq<string>)
    ensures Join(parts) == "" <==> (parts == [] || parts == [""])
  {
  }

  lemma {:induction false} SplitNoSpace(t: string)
    requires ' ' !in t
    ensures Split(t) == [t]
    decreases |t|
  {
    if t != [] {
      SplitNoSpace(t[1..]);
      assert [t[0]] + t[1..] == t;
    }
  }

  lemma {:induction false} SplitAfterWord(t: string, u: string)
    requires ' ' !in t
    ensures Split(t + " " + u) == [t] + Split(u)
    decreases |t|
  {
    if t == [] {
      assert t + " " + u == [' '] + u;
      assert (t + " " + u)[1..] == u;
    } else {
      var s := t + " " + u;
      assert s[0] == t[0];
      assert s[1..] == t[1..] + " " + u;
      SplitAfterWord(t[1..], u);
      assert [t[0]] + t[1..] == t;
    }
  }

  /** Splitting the joined string on single spaces gives the parts back,
      provided there is a part and no part holds a space. */
  lemma {:induction false} SplitJoin(parts: seq<string>)
    requires parts != []
    requires forall i :: 0 <= i < |parts| ==> ' ' !in parts[i]
    ensures Split(Join(parts)) == parts
    decreases |parts|
  {
    if |parts| == 1 {
      SplitNoSpace(parts[0]);
    } else {
      SplitJoin(parts[1..]);
      SplitAfterWord(parts[0], Join(parts[1..]));
      assert [parts[0]] + parts[1..] == parts;
    }
  }

  // ---------------------------------------------------------------------
  // The whole function

  /** When every token is rejected, `preprocess_text` returns `""`. */
  lemma AllRejectedGivesEmpty(text: string, nlp: Nlp)
    requires forall t :: t in nlp.tokenize(Lower(text)) ==> Rejected(t, nlp.stopWords)
    ensures Preprocessed(text, nlp) == ""
  {
    AllRejectedGivesNothing(nlp.tokenize(Lower(text)), nlp);
  }

  /** When the lemmas hold no space and something survives, the result
      splits on spaces into exactly the lemmas of the accepted tokens, in
      the tokenizer's order. */
  lemma PreprocessedTokens(text: string, nlp: Nlp)
    requires Kept(nlp.tokenize(Lower(text)), nlp.stopWords) != []
    requires forall t :: ' ' !in nlp.lemmatize(t)
    ensures var kept := Kept(nlp.tokenize(Lower(text)), nlp.stopWords);
            var words := Split(Preprocessed(text, nlp));
            |words| == |kept| && forall i :: 0 <= i < |kept| ==> words[i] == nlp.lemmatize(kept[i])
  {
    var tokens := nlp.tokenize(Lower(text));
    SurvivorsIsKeptLemmatized(tokens, nlp);
    SplitJoin(Survivors(tokens, nlp));
  }
}
