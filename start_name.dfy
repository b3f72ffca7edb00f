/**
 * getStartFieldName: the field a run starts from. A name given by the
 * caller is kept; otherwise the directory's ".zip" files named
 * "<steps> <rest>" are scanned and the one with the largest step count
 * wins. The directory listing is a parameter, in the listing's order.
 */
module StartName {
  import opened Wrappers
  import opened Decimal

  predicate EndsWithZip(name: string) {
    |name| >= 4 && name[|name| - 4..] == ".zip"
  }

  /** String.indexOf(c): the first position of c, or -1. */
  function IndexOf(s: string, c: char): (k: int)
    ensures -1 <= k < |s|
    ensures k >= 0 ==> s[k] == c && forall t :: 0 <= t < k ==> s[t] != c
    ensures k < 0 ==> forall t :: 0 <= t < |s| ==> s[t] != c
  {
    if s == [] then -1
    else if s[0] == c then 0
    else
      var k := IndexOf(s[1..], c);
      if k < 0 then -1 else k + 1
  }

  /** A name the scan looks at: it ends with ".zip" and has a space. */
  predicate Candidate(name: string) {
    EndsWithZip(name) && IndexOf(name, ' ') >= 0
  }

  /** The text before the first space. */
  function Prefix(name: string): string
    requires Candidate(name)
  {
    name[..IndexOf(name, ' ')]
  }

  /** Integer.parseInt of the prefix; a candidate whose prefix is not an int makes the scan throw. */
  predicate Parses(name: string) {
    Candidate(name) && ParseInt(Prefix(name)).Ok?
  }

  function Score(name: string): int
    requires Parses(name)
  {
    ParseInt(Prefix(name)).value
  }

  /** Every candidate among the first i names has an int prefix. */
  predicate AllParse(names: seq<string>, i: int)
    requires 0 <= i <= |names|
  {
    forall t :: 0 <= t < i && Candidate(names[t]) ==> Parses(names[t])
  }

  /**
   * Name k is the first of greatest score among the first i names, and
   * that score is at least 0.
   */
  predicate BestOf(names: seq<string>, i: int, k: int)
    requires 0 <= i <= |names|
  {
    0 <= k < i && Parses(names[k]) && Score(names[k]) >= 0 &&
    (forall t :: 0 <= t < i && Parses(names[t]) ==> Score(names[t]) <= Score(names[k])) &&
    (forall t :: 0 <= t < k && Parses(names[t]) ==> Score(names[t]) < Score(names[k]))
  }

  /** No name among the first i has a score of 0 or more. */
  predicate NoneScores(names: seq<string>, i: int)
    requires 0 <= i <= |names|
  {
    forall t :: 0 <= t < i && Parses(names[t]) ==> Score(names[t]) < 0
  }

  /** The scan after i names: the running best, or none yet with the score still -1. */
  ghost predicate ScanInv(names: seq<string>, i: int, bestIndex: int, bestName: Option<string>, bestFieldScore: int)
  {
    0 <= i <= |names| && AllParse(names, i) && -1 <= bestIndex < i &&
    (bestIndex < 0 ==> bestName == None && bestFieldScore == -1 && NoneScores(names, i)) &&
    (bestIndex >= 0 ==> bestName == Some(names[bestIndex]) && BestOf(names, i, bestIndex) && bestFieldScore == Score(names[bestIndex]))
  }

  /** One more name: a candidate with a greater score becomes the best, anything else leaves it. */
  lemma ScanStep(names: seq<string>, i: int, bestIndex: int, bestName: Option<string>, bestFieldScore: int)
    requires ScanInv(names, i, bestIndex, bestName, bestFieldScore) && i < |names|
    requires Candidate(names[i]) ==> Parses(names[i])
    ensures Parses(names[i]) && bestFieldScore < Score(names[i]) ==>
      ScanInv(names, i + 1, i, Some(names[i]), Score(names[i]))
    ensures !(Parses(names[i]) && bestFieldScore < Score(names[i])) ==>
      ScanInv(names, i + 1, bestIndex, bestName, bestFieldScore)
  {
    ParseStep(names, i);
    if Parses(names[i]) && bestFieldScore < Score(names[i]) {
      NewBest(names, i, bestIndex, bestFieldScore);
    } else if bestIndex >= 0 {
      KeepBest(names, i, bestIndex);
    } else {
      KeepNone(names, i);
    }
  }

  lemma ParseStep(names: seq<string>, i: int)
    requires 0 <= i < |names| && AllParse(names, i)
    requires Candidate(names[i]) ==> Parses(names[i])
    ensures AllParse(names, i + 1)
  {
  }

  /** A greater score than every earlier one makes name i the best. */
  lemma NewBest(names: seq<string>, i: int, bestIndex: int, bestFieldScore: int)
    requires 0 <= i < |names| && -1 <= bestIndex < i
    requires bestIndex < 0 ==> bestFieldScore == -1 && NoneScores(names, i)
    requires bestIndex >= 0 ==> BestOf(names, i, bestIndex) && bestFieldScore == Score(names[bestIndex])
    requires Parses(names[i]) && bestFieldScore < Score(names[i])
    ensures BestOf(names, i + 1, i)
  {
    if bestIndex >= 0 {
      BeatsBest(names, i, bestIndex);
    } else {
      BeatsNone(names, i);
    }
  }

  lemma BeatsBest(names: seq<string>, i: int, bestIndex: int)
    requires 0 <= bestIndex < i < |names| && BestOf(names, i, bestIndex)
    requires Parses(names[i]) && Score(names[bestIndex]) < Score(names[i])
    ensures BestOf(names, i + 1, i)
  {
  }

  lemma BeatsNone(names: seq<string>, i: int)
    requires 0 <= i < |names| && NoneScores(names, i)
    requires Parses(names[i]) && -1 < Score(names[i])
    ensures BestOf(names, i + 1, i)
  {
  }

  /** A score no greater than the best leaves the best in place. */
  lemma KeepBest(names: seq<string>, i: int, bestIndex: int)
    requires 0 <= bestIndex < i < |names| && BestOf(names, i, bestIndex)
    requires Parses(names[i]) ==> Score(names[i]) <= Score(names[bestIndex])
    ensures BestOf(names, i + 1, bestIndex)
  {
  }

  /** A negative score leaves the scan without a best. */
  lemma KeepNone(names: seq<string>, i: int)
    requires 0 <= i < |names| && NoneScores(names, i)
    requires Parses(names[i]) ==> Score(names[i]) < 0
    ensures NoneScores(names, i + 1)
  {
  }

  /** A candidate that does not parse breaks AllParse for every longer prefix. */
  lemma ParseFails(names: seq<string>, i: int)
    requires 0 <= i < |names| && Candidate(names[i]) && !Parses(names[i])
    ensures !AllParse(names, |names|)
  {
  }

  /**
   * getStartFieldName(bestFieldName) over the listing `names`:
   *  - a given name comes back unchanged;
   *  - a candidate whose prefix is not an int throws NumberFormatException;
   *  - otherwise the result is the first candidate of greatest score among
   *    those scoring at least 0, and null when there is none (the running
   *    best starts at -1 and only a strictly greater score replaces it).
   */
  method StartFieldName(bestFieldName: Option<string>, names: seq<string>) returns (r: Result<Option<string>>)
    ensures bestFieldName.Some? ==> r == Ok(bestFieldName)
    ensures bestFieldName.None? ==> (r.Err? <==> !AllParse(names, |names|))
    ensures bestFieldName.None? && r.Ok? && r.value.Some? ==>
      exists k :: 0 <= k < |names| && names[k] == r.value.value && BestOf(names, |names|, k)
    ensures bestFieldName.None? && r.Ok? && r.value.None? ==> NoneScores(names, |names|)
  {
    if bestFieldName.Some? {
      return Ok(bestFieldName);
    }
    var bestName: Option<string> := None;
    var bestFieldScore := -1;
    ghost var bestIndex := -1;
    for i := 0 to |names|
      invariant ScanInv(names, i, bestIndex, bestName, bestFieldScore)
    {
      ghost var before := (bestIndex, bestName, bestFieldScore);
      var score := FieldScore(names[i]);
      match score {
        case None =>
        case Some(Err(e)) =>
          ParseFails(names, i);
          return Err(e);
        case Some(Ok(fieldScore)) =>
          if bestFieldScore < fieldScore {
            bestFieldScore := fieldScore;
            bestName := Some(names[i]);
            bestIndex := i;
          }
      }
      ScanStep(names, i, before.0, before.1, before.2);
    }
    r := Ok(bestName);
    if bestIndex >= 0 {
      assert names[bestIndex] == r.value.value;
    }
  }

  /**
   * The body of the scan for one file name: skipped (None) unless it ends
   * with ".zip" and has a space, then the parsed prefix or the parse error.
   */
  method FieldScore(fileName: string) returns (score: Option<Result<int>>)
    ensures score.None? <==> !Candidate(fileName)
    ensures score.Some? ==> (score.value.Ok? <==> Parses(fileName))
    ensures score.Some? && score.value.Ok? ==> score.value.value == Score(fileName)
  {
    if !EndsWithZip(fileName) {
      return None;
    }
    var spaceIndex := IndexOf(fileName, ' ');
    if spaceIndex < 0 {
      return None;
    }
    score := Some(ParseInt(fileName[..spaceIndex]));
  }
}
