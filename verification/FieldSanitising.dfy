/** The sanitise steps of a field; letters and digits are those of ASCII. */
module FieldSanitising {
  import HtmlEscaping
  import opened WhiteSpace

  datatype Step = Trim | CollapseWhitespace | StripHtml | EscapeHtml | Lowercase | Numeric

  predicate IsDigit(c: char) {
    '0' <= c <= '9'
  }

  predicate IsUpper(c: char) {
    'A' <= c <= 'Z'
  }

  // ---------------------------------------------------------------------------------------------
  // trim, collapse-whitespace, lowercase

  function TrimLeft(s: string): string {
    if s != "" && IsSpace(s[0]) then TrimLeft(s[1..]) else s
  }

  function TrimRight(s: string): string {
    if s != "" && IsSpace(s[|s| - 1]) then TrimRight(s[..|s| - 1]) else s
  }

  function TrimText(s: string): string {
    TrimRight(TrimLeft(s))
  }

  /** Neither end is white. */
  predicate Trimmed(s: string) {
    s == "" || (!IsSpace(s[0]) && !IsSpace(s[|s| - 1]))
  }

  /** Every run of white space becomes one blank; `inRun` says whether the text so far ended in one. */
  function Collapse(s: string, inRun: bool): string {
    if s == "" then ""
    else if IsSpace(s[0]) then (if inRun then "" else " ") + Collapse(s[1..], true)
    else [s[0]] + Collapse(s[1..], false)
  }

  /** White space is single blanks only. */
  predicate Collapsed(s: string) {
    forall i :: 0 <= i < |s| && IsSpace(s[i]) ==> s[i] == ' ' && (i > 0 ==> !IsSpace(s[i - 1]))
  }

  function Lower(c: char): char {
    if IsUpper(c) then c + 32 as char else c
  }

  function LowerText(s: string): (r: string)
    ensures |r| == |s| && forall i :: 0 <= i < |s| ==> r[i] == Lower(s[i])
  {
    if s == "" then "" else [Lower(s[0])] + LowerText(s[1..])
  }

  predicate Lowered(s: string) {
    forall i :: 0 <= i < |s| ==> !IsUpper(s[i])
  }

  // ---------------------------------------------------------------------------------------------
  // numeric: the first match of -?\d*\.?\d+

  /** How many digits start at `i`. */
  function Digits(s: string, i: nat): (n: nat)
    requires i <= |s|
    ensures i + n <= |s| && (forall k :: i <= k < i + n ==> IsDigit(s[k]))
    ensures i + n < |s| ==> !IsDigit(s[i + n])
    decreases |s| - i
  {
    if i < |s| && IsDigit(s[i]) then 1 + Digits(s, i + 1) else 0
  }

  /** The length the backtracking matcher settles on for \d*\.?\d+ at `i`; 0 when it fails there. */
  function Unsigned(s: string, i: nat): (n: nat)
    requires i <= |s|
    ensures i + n <= |s|
  {
    var whole := Digits(s, i);
    var dot := i + whole;
    if dot < |s| && s[dot] == '.' && Digits(s, dot + 1) > 0 then whole + 1 + Digits(s, dot + 1) else whole
  }

  function MatchAt(s: string, i: nat): (n: nat)
    requires i <= |s|
    ensures i + n <= |s|
  {
    if i < |s| && s[i] == '-' then (if Unsigned(s, i + 1) > 0 then 1 + Unsigned(s, i + 1) else 0)
    else Unsigned(s, i)
  }

  function FirstMatch(s: string, i: nat): string
    requires i <= |s|
    decreases |s| - i
  {
    if MatchAt(s, i) > 0 then s[i..i + MatchAt(s, i)]
    else if i < |s| then FirstMatch(s, i + 1)
    else ""
  }

  function NumericText(s: string): string {
    FirstMatch(s, 0)
  }

  /** `s[i..j]` is in the pattern, split into sign, whole digits, point and digits at `a`, `b` and `c`. */
  predicate Splits(s: string, i: nat, a: nat, b: nat, c: nat, j: nat) {
    && i <= a <= b <= c < j <= |s|
    && (a == i || (a == i + 1 && s[i] == '-'))
    && (forall k :: a <= k < b ==> IsDigit(s[k]))
    && (c == b || (c == b + 1 && s[b] == '.'))
    && (forall k :: c <= k < j ==> IsDigit(s[k]))
  }

  ghost predicate InPattern(s: string, i: nat, j: nat) {
    i < j <= |s| && exists a: nat, b: nat, c: nat :: Splits(s, i, a, b, c, j)
  }

  /** A run of digits is no longer than the digits found. */
  lemma {:induction false} DigitsReach(s: string, i: nat, j: nat)
    requires i <= j <= |s| && forall k :: i <= k < j ==> IsDigit(s[k])
    ensures j <= i + Digits(s, i)
    decreases j - i
  {
    if i < j { DigitsReach(s, i + 1, j); }
  }

  lemma UnsignedIsLongest(s: string, a: nat, b: nat, c: nat, j: nat)
    requires Splits(s, a, a, b, c, j)
    ensures j <= a + Unsigned(s, a)
  {
    DigitsReach(s, a, b);
    if c == b {
      assert forall k :: a <= k < j ==> IsDigit(s[k]);
      DigitsReach(s, a, j);
    } else {
      assert Digits(s, a) == b - a;
      DigitsReach(s, b + 1, j);
    }
  }

  /** The match at a position is in the pattern and is the longest text there that is; no match means there is none. */
  lemma MatchIsLongest(s: string, i: nat)
    requires i <= |s|
    ensures MatchAt(s, i) > 0 ==> InPattern(s, i, i + MatchAt(s, i))
    ensures forall j: nat :: InPattern(s, i, j) ==> i < j <= i + MatchAt(s, i)
  {
    if MatchAt(s, i) > 0 { MatchInPattern(s, i); }
    forall j: nat | InPattern(s, i, j) ensures i < j <= i + MatchAt(s, i) {
      var a: nat, b: nat, c: nat :| Splits(s, i, a, b, c, j);
      assert Splits(s, a, a, b, c, j);
      hide Unsigned;
      UnsignedIsLongest(s, a, b, c, j);
      assert s[i] == '-' ==> a == i + 1;
    }
  }

  lemma MatchInPattern(s: string, i: nat)
    requires i <= |s| && MatchAt(s, i) > 0
    ensures InPattern(s, i, i + MatchAt(s, i))
  {
    var j := i + MatchAt(s, i);
    var a := if s[i] == '-' then i + 1 else i;
    var whole := Digits(s, a);
    if j == a + whole {
      assert Splits(s, i, a, j - 1, j - 1, j);
    } else {
      assert Splits(s, i, a, a + whole, a + whole + 1, j);
    }
  }

  /** `numeric` keeps the leftmost text in the pattern, as long as it can be, or nothing when there is none. */
  lemma NumericIsFirstLongest(s: string)
    ensures NumericText(s) == "" ==> forall i: nat, j: nat :: !InPattern(s, i, j)
    ensures NumericText(s) != "" ==>
              exists i: nat, j: nat :: InPattern(s, i, j) && NumericText(s) == s[i..j] && Leftmost(s, i) && Longest(s, i, j)
  {
    FirstMatchMeaning(s, 0);
    if NumericText(s) == "" {
      forall i: nat, j: nat | InPattern(s, i, j) ensures MatchAt(s, i) > 0 { MatchIsLongest(s, i); }
    } else {
      var h: nat :| h <= |s| && MatchAt(s, h) > 0 && NumericText(s) == s[h..h + MatchAt(s, h)]
                    && forall g: nat :: g < h ==> MatchAt(s, g) == 0;
      hide MatchAt, NumericText;
      MatchIsLongest(s, h);
      forall g: nat, j: nat | g < h ensures !InPattern(s, g, j) { MatchIsLongest(s, g); }
      assert InPattern(s, h, h + MatchAt(s, h)) && Leftmost(s, h) && Longest(s, h, h + MatchAt(s, h));
    }
  }

  ghost predicate Leftmost(s: string, i: nat) {
    forall h: nat, j: nat :: h < i ==> !InPattern(s, h, j)
  }

  ghost predicate Longest(s: string, i: nat, j: nat) {
    forall k: nat :: InPattern(s, i, k) ==> k <= j
  }

  lemma {:induction false} FirstMatchMeaning(s: string, i: nat)
    requires i <= |s|
    ensures FirstMatch(s, i) == "" ==> forall h: nat :: i <= h <= |s| ==> MatchAt(s, h) == 0
    ensures FirstMatch(s, i) != "" ==>
              exists h: nat :: i <= h <= |s| && MatchAt(s, h) > 0 && FirstMatch(s, i) == s[h..h + MatchAt(s, h)]
                               && forall g: nat :: i <= g < h ==> MatchAt(s, g) == 0
    decreases |s| - i
  {
    hide MatchAt;
    if MatchAt(s, i) == 0 && i < |s| { FirstMatchMeaning(s, i + 1); }
  }

  // ---------------------------------------------------------------------------------------------
  // strip-html

  /** The length of the tag `<[^<>]*>` at the start, 0 when there is none. */
  function TagLength(s: string): (n: nat)
    ensures n <= |s|
  {
    if s == "" || s[0] != '<' then 0 else TagEnd(s, 1)
  }

  function TagEnd(s: string, i: nat): (n: nat)
    ensures n <= |s|
    decreases |s| - i
  {
    if i >= |s| || s[i] == '<' then 0 else if s[i] == '>' then i + 1 else TagEnd(s, i + 1)
  }

  function StripTags(s: string): string {
    if s == "" then ""
    else if TagLength(s) > 0 then StripTags(s[TagLength(s)..])
    else [s[0]] + StripTags(s[1..])
  }

  // ---------------------------------------------------------------------------------------------
  // Policies

  function Apply(step: Step, v: string): string {
    match step
    case Trim => TrimText(v)
    case CollapseWhitespace => Collapse(v, false)
    case StripHtml => StripTags(v)
    case EscapeHtml => HtmlEscaping.EscapeHtml(v)
    case Lowercase => LowerText(v)
    case Numeric => NumericText(v)
  }

  /** The steps one after the other. */
  function Sanitised(raw: string, policy: seq<Step>): string {
    if policy == [] then raw else Apply(policy[|policy| - 1], Sanitised(raw, policy[..|policy| - 1]))
  }

  method SanitiseValue(raw: string, policy: seq<Step>) returns (v: string)
    ensures v == Sanitised(raw, policy)
  {
    hide TrimText, Collapse, StripTags, HtmlEscaping.EscapeHtml, LowerText, NumericText;
    v := raw;
    for i := 0 to |policy|
      invariant v == Sanitised(raw, policy[..i])
    {
      assert policy[..i + 1][..i] == policy[..i];
      match policy[i] {
        case Trim => v := TrimText(v);
        case CollapseWhitespace => v := Collapse(v, false);
        case StripHtml => v := StripTags(v);
        case EscapeHtml => v := HtmlEscaping.EscapeHtml(v);
        case Lowercase => v := LowerText(v);
        case Numeric => v := NumericText(v);
      }
    }
    assert policy[..|policy|] == policy;
  }

  /** The steps that normalise for storage. */
  predicate IsStorage(step: Step) {
    step in {Trim, CollapseWhitespace, Lowercase, Numeric}
  }

  function StorageSteps(policy: seq<Step>): (r: seq<Step>)
    ensures forall step :: step in r <==> step in policy && IsStorage(step)
  {
    if policy == [] then []
    else
      var front, last := policy[..|policy| - 1], policy[|policy| - 1];
      assert policy == front + [last];
      StorageSteps(front) + if IsStorage(last) then [last] else []
  }

  function SanitiseForStore(raw: string, policy: seq<Step>): string {
    Sanitised(raw, StorageSteps(policy))
  }
}
