/**
  Performance ranks (apps/web/src/utils.ts): free-form rating text is folded
  into one of five canonical ranks, looked up through a fallback chain in the
  per-platform performance record, and given a display label.
 */
module Rank {
  import opened Wrappers
  import opened Text
  import opened Json

  /** The five canonical performance ranks. */
  predicate IsCanonical(r: string) {
    r == "Excellent" || r == "Good" || r == "Medium" || r == "Poor" || r == "VeryPoor"
  }

  /**
    The keyword tests applied to a trimmed, non-empty text, in priority order;
    text matching none of them is returned as it is.
   */
  function Classify(s: string): (r: string)
    ensures IsCanonical(r) || r == s
  {
    var u := Lower(s);
    if Contains(u, "excellent") then "Excellent"
    else if Contains(u, "good") then "Good"
    else if Contains(u, "medium") then "Medium"
    else if Contains(u, "poor") && !Contains(u, "very") then "Poor"
    else if Contains(u, "verypoor") || Contains(u, "very poor") then "VeryPoor"
    else s
  }

  /** The text `normalizeRank` classifies: `String(x)` trimmed. */
  function RankText(x: Value): string {
    Trim(ToJsString(x))
  }

  /** `normalizeRank(x)`. */
  function NormalizeRank(x: Value): (r: Option<string>)
    ensures r == None <==> !Truthy(x) || RankText(x) == ""
    ensures r.Some? ==> |r.value| > 0
    ensures r.Some? ==> IsCanonical(r.value) || r.value == RankText(x)
  {
    if !Truthy(x) then None
    else
      var s := RankText(x);
      if s == "" then None
      else
        var c := Classify(s);
        assert IsCanonical(c) || c == s;
        Some(c)
  }

  /** "excellent" beats "good", which beats "medium", wherever they occur in the text. */
  lemma NormalizeRankPriority(x: Value)
    requires Truthy(x) && RankText(x) != ""
    ensures var u := Lower(RankText(x));
      && (Contains(u, "excellent") ==> NormalizeRank(x) == Some("Excellent"))
      && (!Contains(u, "excellent") && Contains(u, "good") ==> NormalizeRank(x) == Some("Good"))
      && (!Contains(u, "excellent") && !Contains(u, "good") && Contains(u, "medium") ==>
            NormalizeRank(x) == Some("Medium"))
  {
  }

  /** No earlier keyword (excellent, good, medium) occurs in `u`. */
  predicate NoEarlierKeyword(u: string) {
    !Contains(u, "excellent") && !Contains(u, "good") && !Contains(u, "medium")
  }

  // Each canonical rank, lower-cased, is caught by its own keyword and by no earlier one.

  lemma ClassifyExcellent(c: string)
    requires c == "Excellent"
    ensures Classify(c) == c && Caught(Lower(c))
  {
    var u := Lower(c);
    assert u[0] == 'e' && u[1] == 'x' && u[2] == 'c' && u[3] == 'e' && u[4] == 'l' && u[5] == 'l' && u[6] == 'e' && u[7] == 'n' && u[8] == 't';
    assert u == "excellent";
  }

  lemma ClassifyGood(c: string)
    requires c == "Good"
    ensures Classify(c) == c && Caught(Lower(c))
  {
    var u := Lower(c);
    assert u[0] == 'g' && u[1] == 'o' && u[2] == 'o' && u[3] == 'd';
    assert u == "good";
    ContainsNotLonger(u, "excellent");
  }

  lemma ClassifyMedium(c: string)
    requires c == "Medium"
    ensures Classify(c) == c && Caught(Lower(c))
  {
    var u := Lower(c);
    assert u[0] == 'm' && u[1] == 'e' && u[2] == 'd' && u[3] == 'i' && u[4] == 'u' && u[5] == 'm';
    assert u == "medium";
    ContainsNotLonger(u, "excellent");
    ContainsNeedsFirstChar(u, "good");
  }

  lemma ClassifyPoor(c: string)
    requires c == "Poor"
    ensures Classify(c) == c && Caught(Lower(c))
  {
    var u := Lower(c);
    assert u[0] == 'p' && u[1] == 'o' && u[2] == 'o' && u[3] == 'r';
    assert u == "poor";
    ContainsNotLonger(u, "excellent");
    ContainsNeedsFirstChar(u, "good");
    ContainsNotLonger(u, "medium");
    ContainsNeedsFirstChar(u, "very");
  }

  lemma ClassifyVeryPoor(c: string)
    requires c == "VeryPoor"
    ensures Classify(c) == c && Caught(Lower(c))
  {
    var u := Lower(c);
    assert u[0] == 'v' && u[1] == 'e' && u[2] == 'r' && u[3] == 'y' && u[4] == 'p' && u[5] == 'o' && u[6] == 'o' && u[7] == 'r';
    assert u == "verypoor";
    ContainsNotLonger(u, "excellent");
    ContainsNeedsFirstChar(u, "good");
    ContainsNeedsFirstChar(u, "medium");
    assert Contains(u, "very");
  }

  lemma CanonicalTrimmed(c: string)
    requires IsCanonical(c)
    ensures Trim(c) == c
  {
    var first, last := c[0], c[|c| - 1];
    if c == "Excellent" {
      assert first == 'E' && last == 't';
    } else if c == "Good" {
      assert first == 'G' && last == 'd';
    } else if c == "Medium" {
      assert first == 'M' && last == 'm';
    } else if c == "Poor" {
      assert first == 'P' && last == 'r';
    } else {
      assert first == 'V' && last == 'r';
    }
    assert !IsSpace(first) && !IsSpace(last);
    TrimUnchanged(c);
  }

  /** Each canonical rank classifies as itself. */
  lemma ClassifyCanonical(c: string)
    requires IsCanonical(c)
    ensures Classify(c) == c && Caught(Lower(c)) && Trim(c) == c
  {
    CanonicalTrimmed(c);
    if c == "Excellent" {
      ClassifyExcellent(c);
    } else if c == "Good" {
      ClassifyGood(c);
    } else if c == "Medium" {
      ClassifyMedium(c);
    } else if c == "Poor" {
      ClassifyPoor(c);
    } else {
      ClassifyVeryPoor(c);
    }
  }

  /**
    "Poor" comes out exactly when the text has passed the earlier tests,
    contains "poor" and does not contain "very".
   */
  lemma ClassifyPoorIff(s: string)
    ensures var u := Lower(s);
      Classify(s) == "Poor" <==> NoEarlierKeyword(u) && Contains(u, "poor") && !Contains(u, "very")
  {
    if s == "Poor" {
      ClassifyCanonical(s);
    }
  }

  lemma NormalizeRankPoor(x: Value)
    requires Truthy(x) && RankText(x) != ""
    ensures var u := Lower(RankText(x));
      NormalizeRank(x) == Some("Poor") <==>
        NoEarlierKeyword(u) && Contains(u, "poor") && !Contains(u, "very")
  {
    ClassifyPoorIff(RankText(x));
  }

  /**
    "VeryPoor" comes out exactly when the text has passed the earlier tests
    and contains "verypoor" or "very poor".
   */
  lemma ClassifyVeryPoorIff(s: string)
    ensures var u := Lower(s);
      Classify(s) == "VeryPoor" <==> NoEarlierKeyword(u) && (Contains(u, "verypoor") || Contains(u, "very poor"))
  {
    var u := Lower(s);
    if NoEarlierKeyword(u) && (Contains(u, "verypoor") || Contains(u, "very poor")) {
      VeryPoorByKeyword(s);
    }
    if Classify(s) == "VeryPoor" {
      VeryPoorOnlyByKeyword(s);
    }
  }

  lemma VeryPoorByKeyword(s: string)
    requires var u := Lower(s);
      NoEarlierKeyword(u) && (Contains(u, "verypoor") || Contains(u, "very poor"))
    ensures Classify(s) == "VeryPoor"
  {
    var u := Lower(s);
    if Contains(u, "verypoor") {
      ContainsPrefix(u, "verypoor", "very");
    } else {
      ContainsPrefix(u, "very poor", "very");
    }
  }

  lemma VeryPoorOnlyByKeyword(s: string)
    requires Classify(s) == "VeryPoor"
    ensures var u := Lower(s);
      NoEarlierKeyword(u) && (Contains(u, "verypoor") || Contains(u, "very poor"))
  {
    ClassifyCaught(s);
    if !Caught(Lower(s)) {
      ClassifyVeryPoor(s);
    }
  }

  lemma NormalizeRankVeryPoor(x: Value)
    requires Truthy(x) && RankText(x) != ""
    ensures var u := Lower(RankText(x));
      NormalizeRank(x) == Some("VeryPoor") <==>
        NoEarlierKeyword(u) && (Contains(u, "verypoor") || Contains(u, "very poor"))
  {
    ClassifyVeryPoorIff(RankText(x));
  }

  /** Some keyword test fires on `u`, so the text is not returned as it is. */
  predicate Caught(u: string) {
    || Contains(u, "excellent") || Contains(u, "good") || Contains(u, "medium")
    || (Contains(u, "poor") && !Contains(u, "very"))
    || Contains(u, "verypoor") || Contains(u, "very poor")
  }

  /**
    Text mentioning "very" and "poor" in any other form than "verypoor" or
    "very poor" (and no earlier keyword) is returned trimmed but otherwise as it is.
   */
  lemma NormalizeRankFallThrough(x: Value)
    requires Truthy(x) && RankText(x) != ""
    requires var u := Lower(RankText(x));
      && NoEarlierKeyword(u) && Contains(u, "very") && Contains(u, "poor")
      && !Contains(u, "verypoor") && !Contains(u, "very poor")
    ensures NormalizeRank(x) == Some(RankText(x))
    ensures !IsCanonical(RankText(x))
  {
    if IsCanonical(RankText(x)) {
      ClassifyCanonical(RankText(x));
    }
  }

  /** Normalising a normalised rank gives it back. */
  lemma NormalizeRankIdempotent(x: Value)
    requires NormalizeRank(x).Some?
    ensures NormalizeRank(Str(NormalizeRank(x).value)) == NormalizeRank(x)
  {
    var s := RankText(x);
    var r := Classify(s);
    assert NormalizeRank(x) == Some(r);
    if IsCanonical(r) {
      ClassifyCanonical(r);
    } else {
      TrimIdempotent(ToJsString(x));
    }
    NormalizeTrimmedText(r);
  }

  /** A non-empty text with nothing to trim is classified as it stands. */
  lemma NormalizeTrimmedText(s: string)
    requires s != "" && Trim(s) == s
    ensures NormalizeRank(Str(s)) == Some(Classify(s))
  {
    assert RankText(Str(s)) == s;
  }

  /** The two platforms a performance record is keyed by. */
  datatype Platform = StandaloneWindows | Android

  function PlatformKey(p: Platform): string {
    match p
    case StandaloneWindows => "standalonewindows"
    case Android => "android"
  }

  /** `e?.rating ?? e?.rank ?? e`: the rating of an entry, or the entry itself. */
  function EntryRating(e: Value): Value {
    Coalesce(Coalesce(Get(e, "rating"), Get(e, "rank")), e)
  }

  /** The entry under the alternate keys of a platform, first present one wins. */
  function AltEntry(perf: Value, p: Platform): Value {
    match p
    case StandaloneWindows => Coalesce(Coalesce(Get(perf, "pc"), Get(perf, "windows")), Get(perf, "win"))
    case Android => Coalesce(Coalesce(Get(perf, "quest"), Get(perf, "mobile")), Get(perf, "android"))
  }

  /** `perf?.rating ?? perf?.rank`. */
  function TopRating(perf: Value): Value {
    Coalesce(Get(perf, "rating"), Get(perf, "rank"))
  }

  /** `getPerfRank(perf, platform)`. */
  function GetPerfRank(perf: Value, platform: Platform): (r: Option<string>)
    ensures !Truthy(perf) ==> r == None
    ensures perf.Str? && NormalizeRank(perf).Some? ==> r == NormalizeRank(perf)
  {
    if !Truthy(perf) then None
    else if perf.Str? && NormalizeRank(perf).Some? then NormalizeRank(perf)
    else
      var r1 := NormalizeRank(EntryRating(Get(perf, PlatformKey(platform))));
      if r1.Some? then r1
      else
        var r2 := NormalizeRank(EntryRating(AltEntry(perf, platform)));
        if r2.Some? then r2
        else NormalizeRank(TopRating(perf))
  }

  /** The values `getPerfRank` tries, in order. */
  function Candidates(perf: Value, p: Platform): seq<Value> {
    (if perf.Str? then [perf] else [])
    + [EntryRating(Get(perf, PlatformKey(p))), EntryRating(AltEntry(perf, p)), TopRating(perf)]
  }

  /** The normalisation of the first candidate that has one. */
  function FirstRank(cands: seq<Value>): Option<string> {
    if cands == [] then None
    else if NormalizeRank(cands[0]).Some? then NormalizeRank(cands[0])
    else FirstRank(cands[1..])
  }

  /**
    The lookup is "first candidate in the fallback order that normalises":
    the string itself, the platform-keyed entry, the alternate keys, the
    top-level rating.
   */
  lemma GetPerfRankFirstCandidate(perf: Value, p: Platform)
    requires Truthy(perf)
    ensures GetPerfRank(perf, p) == FirstRank(Candidates(perf, p))
  {
    var own := EntryRating(Get(perf, PlatformKey(p)));
    var alt := EntryRating(AltEntry(perf, p));
    var top := TopRating(perf);
    var tail := [own, alt, top];
    FirstRankCons(top, []);
    FirstRankCons(alt, [top]);
    FirstRankCons(own, [alt, top]);
    assert FirstRank(tail) == GetPerfRank(perf, p) || perf.Str?;
    if perf.Str? {
      assert own == Undefined && alt == Undefined && top == Undefined;
      FirstRankCons(perf, tail);
      assert Candidates(perf, p) == [perf] + tail;
    } else {
      assert Candidates(perf, p) == tail;
    }
  }

  lemma FirstRankCons(v: Value, rest: seq<Value>)
    ensures FirstRank([v] + rest) == if NormalizeRank(v).Some? then NormalizeRank(v) else FirstRank(rest)
  {
    assert ([v] + rest)[1..] == rest;
  }

  /**
    A platform entry that is an object with neither `rating` nor `rank` is
    itself the candidate; `String` prints it as "[object Object]", which
    matches no keyword and is returned as the rank.
   */
  lemma GetPerfRankBareEntry(perf: Value, p: Platform)
    requires perf.Obj? && PlatformKey(p) in perf.fields
    requires var e := perf.fields[PlatformKey(p)]; e.Obj? && "rating" !in e.fields && "rank" !in e.fields
    ensures GetPerfRank(perf, p) == Some("[object Object]")
  {
    var e := perf.fields[PlatformKey(p)];
    assert EntryRating(Get(perf, PlatformKey(p))) == e;
    NormalizeObject(e);
  }

  /** Every object normalises to "[object Object]". */
  lemma NormalizeObject(e: Value)
    requires e.Obj?
    ensures NormalizeRank(e) == Some("[object Object]")
  {
    assert RankText(e) == "[object Object]" by {
      TrimUnchanged("[object Object]");
    }
    ObjectTextUnclassified();
  }

  /** "[object Object]" holds none of the keywords, so it is classified as itself. */
  lemma ObjectTextUnclassified()
    ensures Classify("[object Object]") == "[object Object]"
  {
    var u := Lower("[object Object]");
    assert u[0] == '[' && u[1] == 'o' && u[2] == 'b' && u[3] == 'j' && u[4] == 'e' && u[5] == 'c' && u[6] == 't';
    assert u[7] == ' ' && u[8] == 'o' && u[9] == 'b' && u[10] == 'j' && u[11] == 'e' && u[12] == 'c' && u[13] == 't';
    assert u[14] == ']' && |u| == 15;
    assert 'x' !in u && 'g' !in u && 'm' !in u && 'p' !in u && 'v' !in u;
    ContainsNeedsChar(u, "excellent", 1);
    ContainsNeedsChar(u, "good", 0);
    ContainsNeedsChar(u, "medium", 0);
    ContainsNeedsChar(u, "poor", 0);
    ContainsNeedsChar(u, "verypoor", 0);
    ContainsNeedsChar(u, "very poor", 0);
  }

  /** Precedence: the platform entry beats the alternate keys, which beat the top level. */
  lemma GetPerfRankPrecedence(perf: Value, p: Platform)
    requires Truthy(perf) && !(perf.Str? && NormalizeRank(perf).Some?)
    ensures var own := NormalizeRank(EntryRating(Get(perf, PlatformKey(p))));
      own.Some? ==> GetPerfRank(perf, p) == own
    ensures var own := NormalizeRank(EntryRating(Get(perf, PlatformKey(p))));
      var alt := NormalizeRank(EntryRating(AltEntry(perf, p)));
      own.None? && alt.Some? ==> GetPerfRank(perf, p) == alt
    ensures var own := NormalizeRank(EntryRating(Get(perf, PlatformKey(p))));
      var alt := NormalizeRank(EntryRating(AltEntry(perf, p)));
      own.None? && alt.None? ==> GetPerfRank(perf, p) == NormalizeRank(TopRating(perf))
  {
  }

  /** Whatever `getPerfRank` returns is a normalised rank: normalising it again changes nothing. */
  lemma GetPerfRankIsNormalized(perf: Value, p: Platform)
    requires GetPerfRank(perf, p).Some?
    ensures GetPerfRank(perf, p).value != ""
    ensures NormalizeRank(Str(GetPerfRank(perf, p).value)) == GetPerfRank(perf, p)
  {
    if perf.Str? && NormalizeRank(perf).Some? {
      NormalizeRankIdempotent(perf);
    } else if NormalizeRank(EntryRating(Get(perf, PlatformKey(p)))).Some? {
      NormalizeRankIdempotent(EntryRating(Get(perf, PlatformKey(p))));
    } else if NormalizeRank(EntryRating(AltEntry(perf, p))).Some? {
      NormalizeRankIdempotent(EntryRating(AltEntry(perf, p)));
    } else {
      NormalizeRankIdempotent(TopRating(perf));
    }
  }

  /** The coloured square shown in front of each canonical rank. */
  function Badge(c: string): string
    requires IsCanonical(c)
  {
    if c == "Excellent" then "\U{1F7E6}"
    else if c == "Good" then "\U{1F7E9}"
    else if c == "Medium" then "\U{1F7E8}"
    else if c == "Poor" then "\U{1F7E7}"
    else "\U{1F7E5}"
  }

  /** `rankBadge(rank)`. */
  function RankBadge(rank: Option<string>): (r: string)
    ensures rank == None || rank == Some("") ==> r == "-"
    ensures rank.Some? && IsCanonical(rank.value) ==> r == Badge(rank.value) + " " + rank.value
    ensures rank.Some? && rank.value != "" && !IsCanonical(rank.value) ==> r == rank.value
  {
    if rank == None || rank.value == "" then "-"
    else if IsCanonical(rank.value) then Badge(rank.value) + " " + rank.value
    else rank.value
  }

  /** The keyword tests catch a text exactly when it does not come back unchanged. */
  lemma ClassifyCaught(s: string)
    ensures Caught(Lower(s)) ==> IsCanonical(Classify(s))
    ensures !Caught(Lower(s)) ==> Classify(s) == s
  {
  }

  /** The lower-cased name of the rank that the keyword tests look for. */
  function Keyword(c: string): string
    requires IsCanonical(c)
  {
    if c == "Excellent" then "excellent"
    else if c == "Good" then "good"
    else if c == "Medium" then "medium"
    else if c == "Poor" then "poor"
    else "verypoor"
  }

  /** Each canonical rank lower-cases to its keyword. */
  lemma LowerCanonical(c: string)
    requires IsCanonical(c)
    ensures Lower(c) == Keyword(c)
  {
    var u := Lower(c);
    if c == "Excellent" {
      assert u[0] == 'e';
    } else if c == "Good" {
      assert u[0] == 'g';
    } else if c == "Medium" {
      assert u[0] == 'm';
    } else if c == "Poor" {
      assert u[0] == 'p';
    } else {
      assert u[0] == 'v' && u[4] == 'p';
    }
  }

  /** A badge label, lower-cased, is its square and a space before the keyword of its rank. */
  lemma LabelContainsKeyword(c: string)
    requires IsCanonical(c)
    ensures var u := Lower(RankBadge(Some(c)));
      u == u[..2] + Keyword(c) && Contains(u, Keyword(c))
  {
    var l := RankBadge(Some(c));
    var u := Lower(l);
    LabelSuffix(c);
    assert u[2..] == Lower(c);
    LowerCanonical(c);
    assert u == u[..2] + Keyword(c) + "";
    ContainsInfix(u[..2], Keyword(c), "");
  }

  /** A badge label contains the keyword of the rank it labels, so it is never returned as it is. */
  lemma LabelCaught(c: string)
    ensures IsCanonical(c) ==> Caught(Lower(RankBadge(Some(c))))
  {
    if IsCanonical(c) {
      var u := Lower(RankBadge(Some(c)));
      LabelContainsKeyword(c);
      if c == "Poor" {
        assert u == u[..2] + "poor";
        assert 'v' !in u;
        ContainsNeedsFirstChar(u, "very");
      }
    }
  }

  /** A rank that `normalizeRank` returned as it is never equals the label of a canonical rank. */
  lemma FallThroughIsNoLabel(y: Value, c: string)
    requires NormalizeRank(y).Some? && !IsCanonical(NormalizeRank(y).value)
    ensures IsCanonical(c) ==> NormalizeRank(y).value != RankBadge(Some(c))
  {
    var b := NormalizeRank(y).value;
    assert b == RankText(y) && Classify(b) == b;
    LabelCaught(c);
    ClassifyCaught(b);
  }

  /**
    On normalised ranks the display label identifies the rank: two ranks
    produced by `normalizeRank` that show the same label are the same rank.
   */
  lemma RankBadgeIdentifiesRank(x: Value, y: Value)
    requires NormalizeRank(x).Some? && NormalizeRank(y).Some?
    requires RankBadge(NormalizeRank(x)) == RankBadge(NormalizeRank(y))
    ensures NormalizeRank(x) == NormalizeRank(y)
  {
    var a := NormalizeRank(x).value;
    var b := NormalizeRank(y).value;
    if IsCanonical(a) && !IsCanonical(b) {
      FallThroughIsNoLabel(y, a);
    } else if !IsCanonical(a) && IsCanonical(b) {
      FallThroughIsNoLabel(x, b);
    } else if IsCanonical(a) && IsCanonical(b) {
      LabelSuffix(a);
      LabelSuffix(b);
    }
  }

  /** The rank name follows the square and a space. */
  lemma LabelSuffix(c: string)
    requires IsCanonical(c)
    ensures |RankBadge(Some(c))| == |c| + 2 && RankBadge(Some(c))[2..] == c
  {
  }
}
