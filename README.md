# Resume matcher: a verified Dafny model of its ranking, filtering and request checks

This project models the logic of the resume/job matching backend: the Flask
handler for `POST /match`, the matcher `match_resumes`, and the text
normaliser `preprocess_text`. Every numeric or linguistic step is done by a
library, so the model takes those steps as parameters:

- `Preprocess.Nlp` bundles NLTK's `word_tokenize`, `WordNetLemmatizer.lemmatize`
  and the English stopword set. The only thing assumed about them is that
  they are functions.
- `Matcher.Similarity` is the TF-IDF fit plus the cosine step. It is an
  uninterpreted function from the corpus to either one row of scores or an
  exception.

What remains is modelled and proved:

- `preprocess.dfy` (module `Preprocess`) covers `preprocess_text`. It
  lower-cases the text (ASCII), tokenizes it, and drops every token that is a
  *substring* of Python's 32-character `string.punctuation` or is a stopword.
  It lemmatizes the tokens that survive and joins them with single spaces.
  The method `PreprocessText` keeps the source's append loop and is proved
  equal to the functional description `Join(Survivors(...))`. Lemmas then
  show that this description is a filter followed by a map, keeps order, never
  lengthens the token list, tests a token before it is lemmatized, and that
  the join can be split back into its parts.
- `matcher.dfy` (module `Matcher`) covers `match_resumes`. It models the two
  input guards and the corpus (job text first, resumes after it in input
  order). It pairs entry `i` with `names[i]` and `scores[i]`, and sorts the
  list in place. The sort is an insertion sort on an `array`, proved equal to
  the functional insertion sort `SortDesc`. Lemmas show that `SortDesc` is
  non-increasing in score, is a permutation, keeps the names, and is stable:
  for every score the entries with that score keep their input order. A
  further lemma shows that these properties determine `SortDesc` uniquely.
  So it is exactly what Python's stable `list.sort(reverse=True)` produces.
- `app.dfy` (module `App`) covers `match()`. JSON is a datatype. The
  top-level checks are a pure chain (`CheckRequest`). Each check is also
  stated on its own (`Check`), and a lemma shows that only the first failing
  check is reported. The per-resume loop (`ExtractResumes`) appends names
  and contents and returns at the first bad entry; it is proved equal to the
  function `Extract`. `Handle` is the whole handler as a function, and
  `Match` is the method proved equal to it. It maps a `ValueError` to 400
  and any other exception to 500.

Scores are modelled as `real`. Nothing is claimed about their values or
bounds: the code does not compute them itself.

A few facts about the code shape what the model promises:

- The lemmatizer is WordNet's, with no idempotence guarantee, so the model
  assumes none.
- `match_resumes` returns `[]` for an empty resume list, but the handler
  refuses that list with 400 before calling it. `EmptyResumesRefused`
  states both.
- The code has no zero-norm guard, no clamping of scores to [0, 1] and no
  tolerance for ties. It leaves the scores to scikit-learn and sorts on
  exact equality.
- A token is dropped as punctuation only if the whole token occurs inside
  `string.punctuation`, so `"()"` is dropped and `"!!"` is kept.

## Model

| member | source | states |
|---|---|---|
| `Preprocess.PreprocessText` | backend/utils/preprocess.py:30-60 | the append loop returns the lemmas of the surviving tokens of the tokenized lower-cased text, joined by single spaces (`Join(Survivors(tokenize(Lower(text))))`) |
| `Preprocess.LowerProperties` | backend/utils/preprocess.py:45 | lowering keeps the length, leaves no upper-case ASCII letter, maps each upper-case letter to its lower-case partner (`'A'` to `'a'` … `'Z'` to `'z'`), changes nothing else, and is idempotent |
| `Preprocess.CaseInsensitive` | backend/utils/preprocess.py:45-48 | the text is lowered before it is tokenized: two texts with the same lowering preprocess alike |
| `Preprocess.PunctuationSize` | backend/utils/preprocess.py:54 | `string.punctuation` has 32 characters and holds exactly the ASCII punctuation characters: `!` to `/`, `:` to `@`, `[` to `` ` ``, and `{` to `~` |
| `Preprocess.Rejected` | backend/utils/preprocess.py:54 | a token is dropped when it is a substring of `string.punctuation` or a stopword; every stopword is dropped, and a token longer than `string.punctuation` is dropped exactly when it is a stopword |
| `Preprocess.ParenPairRejected` | backend/utils/preprocess.py:54 | `"()"` is a substring of `string.punctuation`, so it is dropped whatever the stopwords are |
| `Preprocess.DoubleBangKept` | backend/utils/preprocess.py:54 | `"!!"` is not a substring of `string.punctuation`, so it is kept unless it is a stopword |
| `Preprocess.SingleCharactersRejected` | backend/utils/preprocess.py:54 | every one-character punctuation token is dropped, and so is the empty token (the empty string is a substring of everything) |
| `Preprocess.SurvivorsSingle` | backend/utils/preprocess.py:52-57 | a single token yields nothing if it is rejected and its lemma otherwise |
| `Preprocess.SurvivorsAppend` | backend/utils/preprocess.py:52-57 | the loop's output on a concatenation is the concatenation of its outputs on the two parts, so order is kept |
| `Preprocess.KeptIsFilter` | backend/utils/preprocess.py:54 | the tokens let through are never more than the input, are never rejected tokens, and each accepted token occurs as often as in the input |
| `Preprocess.SurvivorsIsKeptLemmatized` | backend/utils/preprocess.py:52-57 | the output is exactly the let-through tokens in tokenizer order, each mapped through the lemmatizer |
| `Preprocess.SurvivorsNoLonger` | backend/utils/preprocess.py:52-57 | there are at most as many output tokens as tokenizer tokens |
| `Preprocess.FilterBeforeLemmatize` | backend/utils/preprocess.py:54-57 | the test looks at the token, not its lemma: an accepted token's lemma is output even if that lemma is a stopword |
| `Preprocess.AllRejectedGivesNothing` | backend/utils/preprocess.py:52-57 | if every token is rejected the loop appends nothing |
| `Preprocess.JoinEmpty` | backend/utils/preprocess.py:60 | `' '.join(parts)` is `""` exactly when there are no parts or a single empty part |
| `Preprocess.SplitJoin` | backend/utils/preprocess.py:60 | splitting the joined string on single spaces gives the parts back when there is a part and no part holds a space |
| `Preprocess.AllRejectedGivesEmpty` | backend/utils/preprocess.py:51-60 | `preprocess_text` returns `""` when no token survives |
| `Preprocess.PreprocessedTokens` | backend/utils/preprocess.py:45-60 | when something survives and lemmas hold no space, the result splits into exactly the lemmas of the accepted tokens, in order |
| `Matcher.Corpus` | backend/utils/matcher.py:29-33 | the corpus has one row more than there are resumes: row 0 is the preprocessed job text and row `i + 1` the preprocessed resume `i` |
| `Matcher.Pair` | backend/utils/matcher.py:49-55 | the unsorted results have one entry per name, and entry `i` carries `resume_names[i]` and the `i`-th score; scores past the last name are not used |
| `Matcher.PairNames` | backend/utils/matcher.py:49-55 | the unsorted results carry exactly `resume_names`, one entry per name, in order |
| `Matcher.SortByScore` | backend/utils/matcher.py:58 | the in-place sort leaves the array equal to the stable descending insertion sort `SortDesc` of its old contents |
| `Matcher.InsertLast` | backend/utils/matcher.py:58 | one pass moves the next entry left past every entry of strictly lower score and leaves the rest of the array alone |
| `Matcher.InsertStable` | backend/utils/matcher.py:58 | inserting an entry appends it to its own score's subsequence and leaves every other score's subsequence unchanged |
| `Matcher.SortDescSorted` | backend/utils/matcher.py:58 | scores in the sorted list are non-increasing from first to last |
| `Matcher.SortDescPermutes` | backend/utils/matcher.py:49-58 | the sorted list is a permutation of the unsorted results and has the same length |
| `Matcher.SortDescStable` | backend/utils/matcher.py:58 | for every score, the entries with that score appear in the sorted list in their original relative order |
| `Matcher.SortDescKeepsNames` | backend/utils/matcher.py:49-58 | every name appears in the sorted list exactly as often as in the input |
| `Matcher.SortedStableUnique` | backend/utils/matcher.py:58 | two lists that are both sorted by descending score and agree on every score's subsequence are equal |
| `Matcher.SortDescIsTheStableSort` | backend/utils/matcher.py:58 | any sorted list that keeps every score's subsequence of the input is `SortDesc` of the input |
| `Matcher.MatchResumes` | backend/utils/matcher.py:8-60 | the method returns what `Ranking` describes: the guards, the corpus, the scoring step's result or exception, the pairing and the sort |
| `Matcher.RankingEmpty` | backend/utils/matcher.py:22-23 | an empty `resume_texts` or `resume_names` gives `[]` without error, whatever the other list holds |
| `Matcher.RankingLengthMismatch` | backend/utils/matcher.py:25-26 | two non-empty lists of different lengths raise `ValueError` with the source's message |
| `Matcher.RankingSorted` | backend/utils/matcher.py:29-58 | for non-empty equal-length lists: the scorer's exception is re-raised, a short score row raises `IndexError`, and otherwise the result has one entry per name and is a permutation of the pairs, keeps the names, is non-increasing and is stable |
| `Matcher.RankedEntriesArePairs` | backend/utils/matcher.py:42-55 | each returned entry is `(names[i], scores[i])` for some resume `i`, with the score taken from the row the scorer gave for the corpus |
| `App.Strip` | backend/app.py:76 | `s.strip()` is the piece of `s` left after removing whitespace (the characters `str.isspace` accepts) from both ends: everything cut off is whitespace, and the result neither starts nor ends with whitespace |
| `App.StripEmptyIffBlank` | backend/app.py:76 | `not s.strip()` holds exactly when every character of `s` is whitespace, with Python's `str.isspace` as the whitespace test |
| `App.Decimal` | backend/app.py:85-91 | the index in a resume message is a non-empty string of decimal digits, with a leading `0` only for index 0 |
| `App.DecimalValue` | backend/app.py:85-91 | the index written into a message reads back as that index |
| `App.PyStrInt` | backend/app.py:93-94 | `str()` of an integer `name` or `content` starts with `-` exactly when the integer is negative, and its digits read back as its magnitude |
| `App.CheckRequest` | backend/app.py:50-77 | the top-level checks accept a request only with a non-empty resume list and a job description that is not all whitespace |
| `App.FirstFailingCheck` | backend/app.py:50-77 | when check `k` is the first to fail, in the order content type, body present, `resumes` present, `job_description` present, `resumes` a list, `resumes` non-empty, `job_description` a non-blank string, `CheckRequest` refuses the request with check `k`'s message and the handler answers 400 with it |
| `App.AllChecksPass` | backend/app.py:57-77 | a request that passes all seven checks is accepted with its resume list and its job text |
| `App.ResumeProblem` | backend/app.py:83-91 | a resume entry draws no message exactly when it is an object with both `name` and `content` |
| `App.ExtractResumes` | backend/app.py:80-94 | the loop with early returns computes `Extract`: the parallel name and content lists, or the first bad entry's message |
| `App.ExtractKeepsFailure` | backend/app.py:83-91 | once an entry fails, later entries are not examined and the message stays that of the earlier failure |
| `App.ExtractReportsFirstProblem` | backend/app.py:83-91 | the message reported is that of the lowest offending index, with not-an-object before missing `name` before missing `content` |
| `App.ExtractSucceeds` | backend/app.py:93-94 | with no offending entry, names and texts have one element per resume, in input order, each `str()` of its field |
| `App.ExtractedMeansWellFormed` | backend/app.py:83-94 | the lists are produced only when every entry is an object with `name` and `content` |
| `App.Respond` | backend/app.py:101-112 | results give 200 with `total_matched` equal to their length, a `ValueError` gives 400 with its message, any other exception gives 500 with the generic message |
| `App.Match` | backend/app.py:48-112 | the handler returns the response `Handle` describes: checks, loop, matching and the mapping of results and exceptions |
| `App.NotJsonFirst` | backend/app.py:50-51 | a non-JSON request is answered 400 with the content-type message whatever its body |
| `App.EmptyResumesRefused` | backend/app.py:73-74 | an empty `resumes` list is refused with 400, although the matcher alone would return `[]` for it |
| `App.BlankJobRefused` | backend/app.py:76-77 | a `job_description` that is not a string or is only whitespace is refused with 400 once `resumes` has passed its checks |
| `App.ValidRequestPassesMatcherGuards` | backend/app.py:96-98 | for an accepted request with well-formed resumes the matcher gets non-empty lists of equal length, so its own guards never fire |
| `App.SuccessfulResponse` | backend/app.py:101-104 | a 200 response lists each resume once by its collected name, in non-increasing score order, and `total_matched` equals the list length and the number of resumes |

## Left out

- Flask plumbing is I/O and not modelled: routing, CORS, logging (including the `logger.info` line), the `/health` endpoint and `app.run`.
- How Flask decides `request.is_json` and parses the body is not modelled. The handler receives a flag and a parsed body. A malformed JSON body is not modelled either; Flask's exception for it would reach the generic 500 branch.
- Non-object JSON bodies (a top-level list, string, number or boolean) are left out; the body is JSON `null` or an object. In the code such a body takes one of four paths. A falsy one (`[]`, `""`, `0`, `false`) fails `not data` and gets 400 "Request body is required" (backend/app.py:57). A list or string that lacks `"resumes"`, such as `[1]` or `"x"`, gets 400 "Missing required field: 'resumes'" (backend/app.py:60), and one that has `"resumes"` but lacks `"job_description"` gets the matching 400 (backend/app.py:63). A non-zero number or `true` makes `'resumes' not in data` raise `TypeError`, which ends as 500 (backend/app.py:110). Only a list or string containing both `"resumes"` and `"job_description"` reaches `data.get` (backend/app.py:66) and raises `AttributeError`, also 500.
- `Matcher.Similarity` stands in for scikit-learn's `TfidfVectorizer` (token pattern, IDF smoothing, L2 normalisation) and for `cosine_similarity`. These are foreign, floating-point code. Their results are an uninterpreted score row or an exception, such as the "empty vocabulary" `ValueError`. No score bound or value is claimed.
- Scores are `real`, so there is no NaN and no floating-point comparison quirk. `float(...)` is the identity.
- NLTK's data downloads are I/O. `word_tokenize`, the lemmatizer and the stopword list are parameters, and exceptions they might raise are not modelled. The lemmatizer is not assumed idempotent.
- `Preprocess.Lower`: only ASCII letters are lower-cased. Python's `str.lower` also maps non-ASCII letters, and sometimes changes the length.
- `App.PyStr`: `str()` of a string, `None`, `True`, `False` and an integer is exact. `str()` of floats, lists and dicts is the parameter `show`, because Python's float and container formatting is not part of this model. A JSON float is a `real`, so `-0.0` is the same value as `0.0`, and the non-standard literals `NaN`, `Infinity` and `-Infinity`, which Python's parser accepts, cannot be represented.
