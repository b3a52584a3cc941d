# OrientAI matching core, modelled in Dafny

OrientAI compares one high-school student's profile (grades per subject,
interests, aspirations) with a catalog of study programs and returns the best
matches. This project models the two parts of `orient_ai.py` that compute
anything, and proves their properties:

- **`Program.score_for`** gives a fitness score in [0, 1]. It is
  0.6 × grade part + 0.25 × interest part + 0.15 × aspiration part.
  - The grade part is the mean of `clamp(0.5 + (grade − required)/10, 0, 1)`
    over the program's required subjects. A missing grade counts as 0.0.
    With no requirements the part is 0.
  - The interest part is |set(tags) ∩ set(interests)| divided by the length of
    the tag list. With no tags the part is 0.
  - The aspiration part is 1 when some tag is an aspiration, else 0.
- **`recommend_programs`** scores every program in catalog order and sorts the
  (program, score) pairs by score, highest first. The sort is stable, so tied
  programs keep their catalog order. It then returns the slice `scored[:top_k]`.

Files:

- `scoring.dfy` (module `Scoring`): the records `StudentProfile` and
  `Program`, and the score as specification functions (`Score`,
  `GradeScore`, `InterestScore`, `AspirationScore`). The method `ScoreFor`
  follows the source's loop, collecting the normalized values in a list, and
  is proved equal to `Score`. Lemmas cover the grade, interest and worked-example
  properties.
- `stable_sort.dfy` (module `StableSort`): sorting (item, score) pairs by
  score, highest first. `StableSortDesc` is the reference stable sort: it is
  proved sorted, a permutation and stable, and it is the only arrangement with
  those properties. So any stable sort, Python's included, gives the same
  list. `SortByScoreDesc` is an in-place stable insertion sort on an array,
  proved equal to `StableSortDesc`. The module is generic in the item type.
- `ranking.dfy` (module `Ranking`): `RecommendPrograms` builds the scored list
  by appending in a loop. It then sorts a copy of that list in place with
  `SortByScoreDesc` and takes the Python slice. The lemmas about the scored
  list and its prefixes are stated for any item type and any score function;
  `ScoreOf(student)` is the score function of one student.

Grades and scores are exact `real`s. The required grades of a program are a
sequence of (subject, required grade) pairs in the dictionary's iteration
order. The grade part is proved independent of that order. Tags, interests and
aspirations are sequences because the source stores lists. `Elements` plays
the role of Python's `set(...)`.

Points where the code's behaviour differs from what one might expect, and the
model follows the code:

- **Negative `top_k`.** One might expect `top_k <= 0` to give an empty
  result. The code's `scored[:top_k]` follows Python slicing, so a negative
  `top_k` drops the last |top_k| entries. The result is empty only when
  the catalog is empty, `top_k == 0`, or `top_k <= -len(programs)`.
  `RecommendPrograms` states both length laws. Like the source, `topK` defaults to 3.
- **Tags as lists.** Tags read like a set of keywords, but the code divides by
  `len(self.tags)`, so a repeated tag counts twice in the denominator.
  `InterestScoreFull` proves that the interest part reaches 1 only when the
  tags have no repeats and all are interests.
- **Grade range.** Grades are documented as 0 to 20, but nothing enforces it.
  The model accepts any real grade, and the [0, 1] bound holds for all of them.

## Model

| member | source | states |
|---|---|---|
| `Scoring.Score` | orient_ai.py:38-72 | The score lies in [0, 1] for every profile and program, whatever the grades. A program with no required grades and no tags scores exactly 0. |
| `Scoring.ScoreFor` | orient_ai.py:47-72 | The source's computation, with the loop that collects one normalized value per required subject, returns exactly `Score`, so it also lies in [0, 1]. |
| `Scoring.Clamp01` | orient_ai.py:57 | `max(0.0, min(1.0, x))` lies in [0, 1], equals x inside that range, and is 0 below it and 1 above it. |
| `Scoring.Normalized` | orient_ai.py:54-57 | One subject's value lies in [0, 1]. It is 0.5 when the requirement is met exactly, 1 when exceeded by 5 or more, and 0 when missed by 5 or more. In between it is 0.5 + diff/10. |
| `Scoring.Terms` | orient_ai.py:50-58 | The `scores` list has one value per required subject, and every value lies in [0, 1]. |
| `Scoring.Sum` | orient_ai.py:60 | A sum of values in [0, 1] lies between 0 and the number of values. |
| `Scoring.GradeScore` | orient_ai.py:47-60 | The grade part lies in [0, 1] and is 0 when the program has no required grades. |
| `Scoring.MissingSubjectCountsAsZero` | orient_ai.py:51-60 | The grade is read with `grades.get(subject, 0.0)` (`GradeOf`), so a required subject missing from the student's grades still contributes one value to the mean, the value for grade 0.0. The grade part equals the one computed with 0.0 entered for that subject. |
| `Scoring.GradeScoreUniform` | orient_ai.py:50-60 | When every required subject yields the same normalized value c, the grade part is c. |
| `Scoring.GradeScoreSaturates` | orient_ai.py:50-60 | Every requirement exceeded by at least 5 points gives a grade part of 1. Every requirement missed by at least 5 points gives 0. |
| `Scoring.TermSumPermutation` | orient_ai.py:51-60 | The sum of the normalized values is the same for any reordering of the required grades. |
| `Scoring.GradeScoreOrderIndependent` | orient_ai.py:51-60 | The grade part does not depend on the iteration order of the required-grades dictionary. |
| `Scoring.ElementsSize` | orient_ai.py:62-64 | `set(tags)` (`Elements`, also used for the aspirations at orient_ai.py:68) has at most `len(tags)` elements, and exactly that many if and only if no tag repeats. |
| `Scoring.Fraction` | orient_ai.py:60-66 | A part of a positive whole divided by the whole lies in [0, 1]. It is 0 exactly when the part is 0, and 1 exactly when the part is the whole. |
| `Scoring.InterestScore` | orient_ai.py:62-66 | The interest part lies in [0, 1] even with repeated tags. It is 0 when there are no tags, and it is 0 if and only if no tag is an interest. |
| `Scoring.InterestScoreFull` | orient_ai.py:62-66 | The interest part is 1 if and only if the tag list is non-empty, has no repeats, and every tag is an interest. |
| `Scoring.AspirationScore` | orient_ai.py:68-69 | The aspiration part is 0 or 1. It is 1 if and only if some tag is one of the student's aspirations. |
| `Scoring.IngInfoInterestPart` | orient_ai.py:62-66 | For the `ing_info` tags and interests informatique and algorithmes, the interest part is 2/4 = 0.5. |
| `Scoring.IngInfoWorkedExample` | orient_ai.py:94-100 | For the `ing_info` program and a student with grades maths 16, physique 14 and francais 12, interests informatique and algorithmes, and aspiration ingénieur: grade part 0.7, interest part 0.5, aspiration part 0, score 0.545. |
| `Ranking.Scored` | orient_ai.py:80-83 | The list of (program, score) pairs has one entry per catalog program, in catalog order: entry i is catalog program i paired with its own score. |
| `Ranking.ScoreOf` | orient_ai.py:82 | The per-program score `p.score_for(student)` lies in [0, 1] for every program. |
| `Ranking.ScoreCatalog` | orient_ai.py:80-83 | The source's loop appends `(p, p.score_for(student))` for each program and ends with exactly `Scored` of the catalog. |
| `Ranking.ScoredCount` | orient_ai.py:80-83 | Each program occurs in the scored list, paired with its own score, exactly as often as it occurs in the catalog. |
| `Ranking.ScoredMembers` | orient_ai.py:80-83 | Every entry of the scored list is a catalog program paired with its own score. |
| `StableSort.Insert` | orient_ai.py:85 | One insertion step adds exactly one entry. |
| `StableSort.StableSortDesc` | orient_ai.py:85 | The reference sort keeps the list's length. |
| `StableSort.InsertPermutes` | orient_ai.py:85 | One insertion step adds its entry and loses nothing. |
| `StableSort.InsertSorted` | orient_ai.py:85 | Inserting into a score-descending list keeps it score-descending. |
| `StableSort.InsertKeepsTies` | orient_ai.py:85 | An inserted entry goes after every entry with the same score. |
| `StableSort.StableSortDescSorted` | orient_ai.py:85 | The sorted list's scores never increase. |
| `StableSort.StableSortDescPermutes` | orient_ai.py:85 | The sorted list has the same entries, with the same multiplicities, as the scored list. |
| `StableSort.StableSortDescStable` | orient_ai.py:85 | For every score value, the entries with that score appear in the same relative order as in the catalog. |
| `StableSort.SortedTiesDetermine` | orient_ai.py:85 | Two score-descending lists with the same ordered tie groups are equal. |
| `StableSort.StableSortDescUnique` | orient_ai.py:85 | Any score-descending list that keeps every tie group in catalog order equals the reference sort. So the result does not depend on which stable sort is used. |
| `StableSort.PrefixTies` | orient_ai.py:85-86 | For every score, the entries of that score kept in a prefix of the sorted list are the first ones of that tie group in the original order. |
| `StableSort.InsertAt` | orient_ai.py:85 | Inserting an entry into a sorted list places it right after the last entry scoring at least as much and before the strictly lower run that ends the list. |
| `StableSort.InsertIntoPrefix` | orient_ai.py:85 | One in-place pass moves `a[i]` left past the strictly lower-scored entries of the sorted prefix. The prefix then equals `Insert` of the old prefix and entry, and the rest of the array is unchanged. |
| `StableSort.SortByScoreDesc` | orient_ai.py:85 | The in-place sort leaves the array equal to the reference stable descending sort of its old contents. |
| `Ranking.Ranked` | orient_ai.py:85 | The sorted catalog has one entry per program, its scores never increase, and it holds the same entries with the same multiplicities as the scored list. |
| `StableSort.KeptBeatDropped` | orient_ai.py:85-86 | In a score-sorted list, every entry of a prefix scores at least as much as every entry after the prefix. |
| `Ranking.SliceEnd` | orient_ai.py:86 | Python's `[:k]` on a list of length n never ends past n. |
| `Ranking.PrefixEntry` | orient_ai.py:80-86 | An entry of a prefix of the ranking is a catalog program with its own score, kept no more often than the program occurs in the catalog. |
| `Ranking.RankedPrefix` | orient_ai.py:85-86 | Every prefix of the ranking is sorted. Each entry carries its own program's score, and no program appears more often than in the catalog. For each score, the tied programs kept are the earliest of that tie group in catalog order. |
| `Ranking.TopOfRanking` | orient_ai.py:80-86 | The first k entries of the ranking are sorted, each is a catalog program with its own score and no more often than in the catalog, each scores at least as much as every entry left out, and tied programs keep their catalog order. |
| `Ranking.RecommendPrograms` | orient_ai.py:74-86 | The result is the stably sorted scored catalog cut at Python's `[:top_k]`, with `top_k` defaulting to 3. For `top_k >= 0` its length is `min(top_k, len(programs))`. For negative `top_k` its length is `max(0, len(programs) + top_k)`. It is sorted, and every kept entry scores at least as much as every entry left out. Each entry is a catalog program with its own score, no more often than in the catalog. Tied programs keep their catalog order. |

## Left out

- Console input and output (`ask_float`, `ask_list`, `collect_student_profile`,
  `main`, orient_ai.py:124-195) are left out. They only prompt, parse,
  re-prompt and print.
- `build_example_programs` (orient_ai.py:88-122) is static data. Only the
  `ing_info` record is transcribed, as `Scoring.IngInfo`, for the worked example.
- Python `float` rounding is not modelled. Grades and scores are exact reals,
  so 0.545 is a statement about real arithmetic.
- `Ranking.RecommendPrograms` does not model sorting the Python list object in
  place. It sorts an array copy of the freshly built list, which nothing else
  can see. The sort is insertion sort rather than Python's Timsort.
  `StableSortDescUnique` shows that every stable descending sort gives the
  same result.
- The required grades (`minGrades`) are a sequence of pairs. It can hold a subject
  twice, which a dictionary cannot. The score is defined for any such
  sequence, and the dictionary case is the one with distinct subjects.
- The display-only fields (`name`, `id`, `domain`) are carried along and play
  no part in scoring or ranking.
