/** What each sanitise step does to a text, character by character, and how the steps of a list combine. */
module SanitiseSteps {
  import HtmlEscaping
  import opened WhiteSpace
  import opened FieldSanitising
  import opened StoredValues

  // ---------------------------------------------------------------------------------------------
  // lowercase

  /** Each capital from A to Z, 65 to 90, becomes the small letter 32 further on; every other character stays. */
  lemma LowercaseMeaning(s: string, i: nat)
    requires i < |s|
    ensures |LowerText(s)| == |s|
    ensures 65 <= s[i] as int <= 90 ==> LowerText(s)[i] as int == s[i] as int + 32
    ensures s[i] as int < 65 || s[i] as int > 90 ==> LowerText(s)[i] == s[i]
  {
  }

  // ---------------------------------------------------------------------------------------------
  // numeric

  lemma DigitsAre(c: char)
    ensures IsDigit(c) <==> c in "0123456789"
  {
    var all := "0123456789";
    assert all[0] == '0' && all[1] == '1' && all[2] == '2' && all[3] == '3' && all[4] == '4';
    assert all[5] == '5' && all[6] == '6' && all[7] == '7' && all[8] == '8' && all[9] == '9';
    if IsDigit(c) { assert c == all[c as int - 48]; }
  }

  // ---------------------------------------------------------------------------------------------
  // collapse-whitespace

  /** White ends stay, as one blank; with the words kept and single blanks inside, that is the whole of it. */
  lemma {:induction false} CollapseKeepsEnds(s: string)
    requires s != ""
    ensures var r := Collapse(s, false);
      && r != ""
      && (IsSpace(s[0]) ==> r[0] == ' ') && (!IsSpace(s[0]) ==> r[0] == s[0])
      && (IsSpace(s[|s| - 1]) ==> r[|r| - 1] == ' ') && (!IsSpace(s[|s| - 1]) ==> r[|r| - 1] == s[|s| - 1])
  {
    CollapseKeeps(s, false);
    CollapseStep(s, false);
    hide IsSpace;
    if IsSpace(s[|s| - 1]) { WhiteEnd(s, false); }
  }

  lemma {:induction false} WhiteEnd(s: string, inRun: bool)
    requires s != "" && IsSpace(s[|s| - 1])
    ensures var r := Collapse(s, inRun); if r == "" then inRun else r[|r| - 1] == ' '
    decreases |s|
  {
    CollapseStep(s, inRun);
    if |s| > 1 {
      WhiteEnd(s[1..], IsSpace(s[0]));
    } else {
      assert Collapse(s[1..], IsSpace(s[0])) == "";
    }
    hide IsSpace, Collapse;
  }

  // ---------------------------------------------------------------------------------------------
  // strip-html

  /** `s[a..b]` is an opening bracket, characters that are no brackets, and a closing bracket. */
  predicate IsTag(s: string, a: nat, b: nat) {
    && a + 2 <= b <= |s| && s[a] == '<' && s[b - 1] == '>'
    && forall k :: a < k < b - 1 ==> s[k] != '<' && s[k] != '>'
  }

  ghost predicate InTag(s: string, i: nat) {
    exists a: nat, b: nat :: a <= i < b && IsTag(s, a, b)
  }

  /** The characters from place `i` on that are in no tag. */
  ghost function Outside(s: string, i: nat): string
    requires i <= |s|
    decreases |s| - i
  {
    if i == |s| then "" else (if InTag(s, i) then "" else [s[i]]) + Outside(s, i + 1)
  }

  /** From place `i` on, characters that are no brackets and then, just before `b`, a closing one. */
  predicate TagTail(s: string, i: nat, b: nat) {
    i < b <= |s| && s[b - 1] == '>' && forall k :: i <= k < b - 1 ==> s[k] != '<' && s[k] != '>'
  }

  lemma {:induction false} TagEndIs(s: string, i: nat)
    requires i <= |s|
    ensures var n := TagEnd(s, i); if n == 0 then forall b: nat :: !TagTail(s, i, b) else TagTail(s, i, n)
    decreases |s| - i
  {
    if i < |s| && s[i] != '<' && s[i] != '>' {
      TagEndIs(s, i + 1);
      forall b: nat | TagTail(s, i, b) ensures TagTail(s, i + 1, b) {}
    }
  }

  /** The tag at place `i`, if there is one. */
  lemma TagAt(s: string, i: nat)
    requires i <= |s|
    ensures var n := TagLength(s[i..]); if n == 0 then forall b: nat :: !IsTag(s, i, b) else IsTag(s, i, i + n)
  {
    var t := s[i..];
    if t != "" && t[0] == '<' {
      TagEndIs(t, 1);
      var n := TagLength(t);
      if n > 0 {
        assert forall k :: i < k < i + n - 1 ==> s[k] == t[k - i];
      } else {
        forall b: nat | IsTag(s, i, b) ensures TagTail(t, 1, b - i) {
          assert forall k :: 1 <= k < b - i - 1 ==> t[k] == s[i + k];
        }
      }
    }
  }

  /** Place `i` is the first of a tag or in none. */
  ghost predicate NotWithin(s: string, i: nat) {
    forall a: nat, b: nat :: a < i < b ==> !IsTag(s, a, b)
  }

  /** Two tags are one or have nothing in common. */
  lemma TagsApart(s: string, a: nat, b: nat, c: nat, d: nat)
    requires IsTag(s, a, b) && IsTag(s, c, d)
    ensures b <= c || d <= a || (a == c && b == d)
  {
  }

  lemma AfterTag(s: string, i: nat, b: nat)
    requires NotWithin(s, i) && IsTag(s, i, b)
    ensures NotWithin(s, b)
  {
    forall c: nat, d: nat | c < b < d ensures !IsTag(s, c, d) {
      if IsTag(s, c, d) { TagsApart(s, i, b, c, d); }
    }
  }

  lemma {:induction false} SkipTag(s: string, a: nat, i: nat, b: nat)
    requires IsTag(s, a, b) && a <= i <= b
    ensures Outside(s, i) == Outside(s, b)
    decreases b - i
  {
    if i < b {
      assert InTag(s, i);
      SkipTag(s, a, i + 1, b);
    }
  }

  /** Stripping leaves the characters that are in no tag, in their order. */
  lemma {:induction false} StripIsOutsideTags(s: string, i: nat)
    requires i <= |s| && NotWithin(s, i)
    ensures StripTags(s[i..]) == Outside(s, i)
    decreases |s| - i
  {
    hide IsTag, TagLength;
    if i < |s| {
      TagAt(s, i);
      var n := TagLength(s[i..]);
      if n > 0 {
        AfterTag(s, i, i + n);
        SkipTag(s, i, i, i + n);
        StripIsOutsideTags(s, i + n);
        assert s[i..][n..] == s[i + n..];
      } else {
        assert !InTag(s, i);
        StripIsOutsideTags(s, i + 1);
        assert s[i..][1..] == s[i + 1..];
      }
    }
  }

  lemma StripsTags(s: string)
    ensures StripTags(s) == Outside(s, 0)
  {
    StripIsOutsideTags(s, 0);
    assert s[0..] == s;
  }

  // ---------------------------------------------------------------------------------------------
  // Lists of steps

  /** The steps of a list follow one another, and an empty list changes nothing. */
  lemma {:induction false} StepsFollow(raw: string, p: seq<Step>, q: seq<Step>)
    ensures Sanitised(raw, p + q) == Sanitised(Sanitised(raw, p), q)
    ensures Sanitised(raw, []) == raw
    decreases |q|
  {
    hide Apply;
    if q == [] {
      assert p + q == p;
    } else {
      assert (p + q)[..|p + q| - 1] == p + q[..|q| - 1];
      StepsFollow(raw, p, q[..|q| - 1]);
    }
  }

  /** Each step is its own transformation. */
  lemma OneStep(raw: string)
    ensures Sanitised(raw, [Trim]) == TrimText(raw)
    ensures Sanitised(raw, [CollapseWhitespace]) == Collapse(raw, false)
    ensures Sanitised(raw, [StripHtml]) == StripTags(raw)
    ensures Sanitised(raw, [EscapeHtml]) == HtmlEscaping.EscapeHtml(raw)
    ensures Sanitised(raw, [Lowercase]) == LowerText(raw)
    ensures Sanitised(raw, [Numeric]) == NumericText(raw)
  {
    forall step ensures Sanitised(raw, [step]) == Apply(step, raw) { OneOf(raw, step); }
    hide Sanitised, TrimText, Collapse, StripTags, HtmlEscaping.EscapeHtml, LowerText, NumericText;
  }

  lemma OneOf(raw: string, step: Step)
    ensures Sanitised(raw, [step]) == Apply(step, raw)
  {
    hide Apply;
    assert [step][..0] == [];
  }

  /** Storing takes the normalising steps in their order and leaves the output steps out. */
  lemma {:induction false} StorageStepsJoin(p: seq<Step>, q: seq<Step>)
    ensures StorageSteps(p + q) == StorageSteps(p) + StorageSteps(q)
    ensures forall step :: StorageSteps([step]) == if step == StripHtml || step == EscapeHtml then [] else [step]
    decreases |q|
  {
    forall step ensures StorageSteps([step]) == if step == StripHtml || step == EscapeHtml then [] else [step] {
      assert [step][..0] == [];
    }
    if q == [] {
      assert p + q == p;
    } else {
      assert (p + q)[..|p + q| - 1] == p + q[..|q| - 1];
      StorageStepsJoin(p, q[..|q| - 1]);
    }
  }
}
