/** What the results scraper reads off one lab report's page text
    (streamlit_app.py, lines 126-140): the crop type, by a priority-ordered
    substring cascade, and the lime recommendation, by a leftmost search for
    the pattern `([0-9]+(?:\.[0-9]+)?)\s*lb/1000`. The text is the page's
    visible text, already extracted. */
module ReportText {
  import opened Text

  const CoolSeason := "Cool-Season"
  const WarmSeason := "Warm-Season"
  const Centipede := "Centipede"
  const NoCrop := "N/A"

  /** The crop names in the order the cascade tests them. */
  const CropPriority := [CoolSeason, WarmSeason, Centipede]

  /** The crop type the scraper records: "Cool-Season" beats "Warm-Season",
      which beats "Centipede"; "N/A" when none occurs. */
  function CropType(text: string): (crop: string)
    ensures Contains(text, CoolSeason) ==> crop == CoolSeason
    ensures crop == WarmSeason <==> Contains(text, WarmSeason) && !Contains(text, CoolSeason)
    ensures crop == Centipede <==>
              Contains(text, Centipede) && !Contains(text, WarmSeason) && !Contains(text, CoolSeason)
    ensures crop == NoCrop <==>
              !Contains(text, CoolSeason) && !Contains(text, WarmSeason) && !Contains(text, Centipede)
  {
    if Contains(text, CoolSeason) then CoolSeason
    else if Contains(text, WarmSeason) then WarmSeason
    else if Contains(text, Centipede) then Centipede
    else NoCrop
  }

  /** The cascade picks the first crop name, in priority order, that occurs in
      the text, and "N/A" when there is none. */
  lemma CropTypeIsFirstOccurring(text: string)
    ensures match FirstContaining(text, CropPriority)
              case Some(k) => CropType(text) == CropPriority[k]
              case None => CropType(text) == NoCrop
  {
    var r := FirstContaining(text, CropPriority);
    if r.Some? {
      assert r.value == 0 || !Contains(text, CropPriority[0]);
      assert r.value == 2 ==> !Contains(text, CropPriority[1]);
    } else {
      assert !Contains(text, CropPriority[0]) && !Contains(text, CropPriority[1]) && !Contains(text, CropPriority[2]);
    }
  }

  // ---------------------------------------------------------------------------
  // The pattern ([0-9]+(?:\.[0-9]+)?)\s*lb/1000, declaratively

  const Unit := "lb/1000"

  ghost predicate AllDigits(t: string) {
    forall m :: 0 <= m < |t| ==> IsDigit(t[m])
  }

  /** What the capture group `[0-9]+(?:\.[0-9]+)?` accepts: a run of digits,
      optionally followed by a dot and a second run of digits. */
  ghost predicate IsNumeral(t: string) {
    || (|t| > 0 && AllDigits(t))
    || exists p :: 0 < p < |t| - 1 && t[p] == '.' && AllDigits(t[..p]) && AllDigits(t[p + 1..])
  }

  /** `s[j..]` begins with `\s*lb/1000`. */
  ghost predicate UnitFollows(s: string, j: int) {
    0 <= j && exists k :: j <= k && OccursAt(s, Unit, k) && forall m :: j <= m < k ==> IsSpace(s[m])
  }

  /** The whole pattern matches at start `i`, with the capture group `s[i..j]`. */
  ghost predicate Matches(s: string, i: int, j: int) {
    0 <= i < j <= |s| && IsNumeral(s[i..j]) && UnitFollows(s, j)
  }

  // ---------------------------------------------------------------------------
  // The pattern, as the backtracking matcher runs it

  /** The end of the longest run of characters satisfying `p` from `k` on. */
  function RunEnd(s: string, k: nat, p: char -> bool): (e: nat)
    requires k <= |s|
    ensures k <= e <= |s|
    ensures forall m :: k <= m < e ==> p(s[m])
    ensures e == |s| || !p(s[e])
    decreases |s| - k
  {
    if k < |s| && p(s[k]) then RunEnd(s, k + 1, p) else k
  }

  /** `\s*lb/1000` matches at `j`: greedy `\s*` then the literal. */
  function UnitAt(s: string, j: nat): bool
    requires j <= |s|
  {
    var k := RunEnd(s, j, IsSpace);
    k + |Unit| <= |s| && s[k..k + |Unit|] == Unit
  }

  /** The end of the capture group when the pattern is tried at start `i`, in
      the order the backtracking engine tries the alternatives: the optional
      fraction first, then without it. Giving back digits of a greedy run never
      helps, because a digit can be followed by none of `.`, `\s` or `l`. */
  function CaptureEnd(s: string, i: nat): (r: Option<nat>)
    requires i <= |s|
    ensures r.Some? ==> i < r.value <= |s|
  {
    if i == |s| || !IsDigit(s[i]) then None
    else
      var d := RunEnd(s, i, IsDigit);
      if d + 1 < |s| && s[d] == '.' && IsDigit(s[d + 1]) && UnitAt(s, RunEnd(s, d + 1, IsDigit)) then
        Some(RunEnd(s, d + 1, IsDigit))
      else if UnitAt(s, d) then Some(d)
      else None
  }

  datatype Span = Span(start: nat, end: nat)

  /** `re.search`: the first start position, from `i` on, where the pattern
      matches, with its capture group. */
  function Search(s: string, i: nat): (r: Option<Span>)
    requires i <= |s|
    ensures r.Some? ==> i <= r.value.start < r.value.end <= |s|
    decreases |s| - i
  {
    if i == |s| then None
    else match CaptureEnd(s, i)
      case Some(j) => Some(Span(i, j))
      case None => Search(s, i + 1)
  }

  /** The lime recommendation as the scraper records it: the leftmost capture,
      or "None". The `elif "no lime"` test assigns "None" over "None". */
  function LimeValue(text: string): (lime: string)
    ensures lime == "None" || exists i :: OccursAt(text, lime, i)
  {
    match Search(text, 0)
    case Some(span) =>
      var capture := text[span.start..span.end];
      assert OccursAt(text, capture, span.start);
      capture
    case None => if Contains(Lower(text), "no lime") then "None" else "None"
  }

  // ---------------------------------------------------------------------------
  // The matcher agrees with the pattern

  /** A maximal run is determined by where it stops. */
  lemma {:induction false} RunEndAt(s: string, k: nat, e: nat, p: char -> bool)
    requires k <= e <= |s|
    requires forall m :: k <= m < e ==> p(s[m])
    requires e == |s| || !p(s[e])
    ensures RunEnd(s, k, p) == e
    decreases e - k
  {
    if k < e {
      RunEndAt(s, k + 1, e, p);
    }
  }

  lemma UnitAtIff(s: string, j: nat)
    requires j <= |s|
    ensures UnitAt(s, j) <==> UnitFollows(s, j)
  {
    var k := RunEnd(s, j, IsSpace);
    if UnitAt(s, j) {
      assert OccursAt(s, Unit, k);
    }
    if UnitFollows(s, j) {
      var k' :| j <= k' && OccursAt(s, Unit, k') && forall m :: j <= m < k' ==> IsSpace(s[m]);
      assert s[k'] == s[k'..k' + |Unit|][0] == 'l';
      RunEndAt(s, j, k', IsSpace);
    }
  }

  /** What follows a match is whitespace or the `l` of the unit. */
  lemma UnitFollowsStart(s: string, j: int)
    requires UnitFollows(s, j)
    ensures 0 <= j < |s| && (IsSpace(s[j]) || s[j] == 'l')
  {
    var k :| j <= k && OccursAt(s, Unit, k) && forall m :: j <= m < k ==> IsSpace(s[m]);
    assert s[k] == s[k..k + |Unit|][0] == 'l';
  }

  lemma CaptureEndSound(s: string, i: nat, j: nat)
    requires i <= |s| && CaptureEnd(s, i) == Some(j)
    ensures Matches(s, i, j)
  {
    var d := RunEnd(s, i, IsDigit);
    if d + 1 < |s| && s[d] == '.' && IsDigit(s[d + 1]) && UnitAt(s, RunEnd(s, d + 1, IsDigit)) {
      FractionMatches(s, i, d, j);
    } else {
      WholeMatches(s, i, d);
    }
  }

  lemma WholeMatches(s: string, i: nat, d: nat)
    requires i < d <= |s|
    requires forall m :: i <= m < d ==> IsDigit(s[m])
    requires UnitAt(s, d)
    ensures Matches(s, i, d)
  {
    assert AllDigits(s[i..d]);
    UnitAtIff(s, d);
  }

  lemma FractionMatches(s: string, i: nat, d: nat, e: nat)
    requires i < d && d + 1 < e <= |s|
    requires forall m :: i <= m < d ==> IsDigit(s[m])
    requires s[d] == '.'
    requires forall m :: d + 1 <= m < e ==> IsDigit(s[m])
    requires UnitAt(s, e)
    ensures Matches(s, i, e)
  {
    var t := s[i..e];
    assert t[..d - i] == s[i..d];
    assert t[d - i + 1..] == s[d + 1..e];
    assert t[d - i] == '.';
    assert IsNumeral(t);
    UnitAtIff(s, e);
  }

  lemma CaptureEndComplete(s: string, i: nat, j: int)
    requires i <= |s|
    requires Matches(s, i, j)
    ensures CaptureEnd(s, i) == Some(j)
  {
    var t := s[i..j];
    if |t| > 0 && AllDigits(t) {
      WholeCaptureEnd(s, i, j);
    } else {
      var p :| 0 < p < |t| - 1 && t[p] == '.' && AllDigits(t[..p]) && AllDigits(t[p + 1..]);
      FractionCaptureEnd(s, i, i + p, j);
    }
  }

  /** A match without a fraction: the digit run is maximal. */
  lemma WholeCaptureEnd(s: string, i: nat, j: nat)
    requires i < j <= |s| && AllDigits(s[i..j])
    requires UnitFollows(s, j)
    ensures CaptureEnd(s, i) == Some(j)
  {
    UnitFollowsStart(s, j);
    UnitAtIff(s, j);
    assert forall m :: i <= m < j ==> IsDigit(s[m]) by {
      forall m | i <= m < j ensures IsDigit(s[m]) { assert s[m] == s[i..j][m - i]; }
    }
    RunEndAt(s, i, j, IsDigit);
  }

  /** A match with a fraction: both digit runs are maximal. */
  lemma FractionCaptureEnd(s: string, i: nat, d: nat, j: nat)
    requires i < d && d + 1 < j <= |s|
    requires AllDigits(s[i..j][..d - i]) && s[i..j][d - i] == '.' && AllDigits(s[i..j][d - i + 1..])
    requires UnitFollows(s, j)
    ensures CaptureEnd(s, i) == Some(j)
  {
    UnitFollowsStart(s, j);
    UnitAtIff(s, j);
    assert forall m :: i <= m < d ==> IsDigit(s[m]) by {
      forall m | i <= m < d ensures IsDigit(s[m]) { assert s[m] == s[i..j][..d - i][m - i]; }
    }
    assert forall m :: d + 1 <= m < j ==> IsDigit(s[m]) by {
      forall m | d + 1 <= m < j ensures IsDigit(s[m]) { assert s[m] == s[i..j][d - i + 1..][m - d - 1]; }
    }
    assert s[d] == s[i..j][d - i];
    RunEndAt(s, i, d, IsDigit);
    RunEndAt(s, d + 1, j, IsDigit);
  }

  /** `Search` finds the leftmost match from `k` on, and finds nothing only
      when there is no match from `k` on. */
  lemma {:induction false} SearchLeftmost(s: string, k: nat)
    requires k <= |s|
    ensures Search(s, k).Some? ==>
              var sp := Search(s, k).value;
              k <= sp.start && Matches(s, sp.start, sp.end) &&
              forall i, j :: k <= i < sp.start ==> !Matches(s, i, j)
    ensures Search(s, k).None? ==> forall i, j :: k <= i ==> !Matches(s, i, j)
    decreases |s| - k
  {
    if k == |s| {
    } else {
      if CaptureEnd(s, k).Some? {
        CaptureEndSound(s, k, CaptureEnd(s, k).value);
      }
      forall j | Matches(s, k, j) ensures CaptureEnd(s, k) == Some(j) {
        CaptureEndComplete(s, k, j);
      }
      if CaptureEnd(s, k).None? {
        SearchLeftmost(s, k + 1);
      }
    }
  }

  /** A capture is a numeral: non-empty, digits with at most one dot, and it
      begins and ends with a digit. */
  lemma NumeralShape(t: string)
    requires IsNumeral(t)
    ensures |t| > 0 && IsDigit(t[0]) && IsDigit(t[|t| - 1])
    ensures forall m :: 0 <= m < |t| ==> IsDigit(t[m]) || t[m] == '.'
    ensures forall m, n :: 0 <= m < n < |t| && t[m] == '.' ==> t[n] != '.'
  {
    if !(|t| > 0 && AllDigits(t)) {
      var p :| 0 < p < |t| - 1 && t[p] == '.' && AllDigits(t[..p]) && AllDigits(t[p + 1..]);
      assert forall m :: 0 <= m < p ==> t[m] == t[..p][m];
      assert forall m :: p < m < |t| ==> t[m] == t[p + 1..][m - p - 1];
    }
  }

  // ---------------------------------------------------------------------------
  // What the scraper records for the lime recommendation

  /** The lime value is "None" exactly when the pattern matches nowhere in the
      text, whether or not the text says "no lime". */
  lemma LimeNoneIff(text: string)
    ensures LimeValue(text) == "None" <==> forall i, j :: !Matches(text, i, j)
  {
    SearchLeftmost(text, 0);
    var r := Search(text, 0);
    if r.Some? {
      var t := text[r.value.start..r.value.end];
      NumeralShape(t);
      assert t[0] != 'N';
    }
  }

  /** A recorded lime value is the capture of the leftmost match: a numeral
      followed in the text by optional whitespace and `lb/1000`, with no match
      starting further left. */
  lemma LimeIsLeftmostCapture(text: string)
    requires LimeValue(text) != "None"
    ensures exists i, j ::
              Matches(text, i, j) && LimeValue(text) == text[i..j] &&
              forall i', j' :: 0 <= i' < i ==> !Matches(text, i', j')
  {
    SearchLeftmost(text, 0);
    var sp := Search(text, 0).value;
    assert Matches(text, sp.start, sp.end);
  }

  /** A recorded lime value is non-empty, made of digits and at most one dot,
      and begins and ends with a digit. */
  lemma LimeShape(text: string)
    requires LimeValue(text) != "None"
    ensures var lime := LimeValue(text);
            |lime| > 0 && IsDigit(lime[0]) && IsDigit(lime[|lime| - 1]) &&
            (forall m :: 0 <= m < |lime| ==> IsDigit(lime[m]) || lime[m] == '.') &&
            (forall m, n :: 0 <= m < n < |lime| && lime[m] == '.' ==> lime[n] != '.')
  {
    SearchLeftmost(text, 0);
    var sp := Search(text, 0).value;
    NumeralShape(text[sp.start..sp.end]);
  }
}
