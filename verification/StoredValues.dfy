/** A value sanitised for storage is stored as it is the next time, whatever steps its field lists. */
module StoredValues {
  import HtmlEscaping
  import opened FieldSanitising
  import opened WhiteSpace

  // ---------------------------------------------------------------------------------------------
  // What each step leaves alone

  ghost predicate White(s: string) {
    forall k :: 0 <= k < |s| ==> IsSpace(s[k])
  }

  lemma {:induction false} TrimLeftCut(s: string) returns (i: nat)
    ensures i <= |s| && TrimLeft(s) == s[i..] && White(s[..i]) && (i < |s| ==> !IsSpace(s[i]))
    decreases |s|
  {
    i := 0;
    if s != "" && IsSpace(s[0]) {
      var k := TrimLeftCut(s[1..]);
      i := k + 1;
      assert s[1..][k..] == s[i..];
      assert s[..i] == [s[0]] + s[1..][..k];
    }
  }

  lemma {:induction false} TrimRightCut(s: string) returns (j: nat)
    ensures j <= |s| && TrimRight(s) == s[..j] && White(s[j..]) && (j > 0 ==> !IsSpace(s[j - 1]))
    decreases |s|
  {
    j := |s|;
    if s != "" && IsSpace(s[|s| - 1]) {
      var front := s[..|s| - 1];
      j := TrimRightCut(front);
      assert front[..j] == s[..j];
      assert s[j..] == front[j..] + [s[|s| - 1]];
    }
  }

  /** Trimming cuts white text off both ends and leaves neither end white. */
  lemma TrimMeaning(s: string) returns (i: nat, j: nat)
    ensures i <= j <= |s| && TrimText(s) == s[i..j] && Trimmed(TrimText(s))
    ensures White(s[..i]) && White(s[j..])
  {
    i := TrimLeftCut(s);
    var left := s[i..];
    var k := TrimRightCut(left);
    j := i + k;
    hide IsSpace, TrimLeft, TrimRight;
    assert left[..k] == s[i..j] && left[k..] == s[j..];
    assert TrimText(s) == s[i..j] by { TrimIs(s); }
    if k > 0 { assert s[i..j][0] == left[0] == s[i] && s[i..j][k - 1] == left[k - 1]; }
  }

  lemma TrimIs(s: string)
    ensures TrimText(s) == TrimRight(TrimLeft(s))
  {
  }

  lemma TrimFixes(s: string)
    requires Trimmed(s)
    ensures TrimText(s) == s
  {
  }

  /** Collapsing yields single blanks only. */
  lemma {:induction false} CollapseCollapses(s: string, inRun: bool)
    ensures Collapsed(Collapse(s, inRun))
    ensures var r := Collapse(s, inRun); inRun && r != "" ==> !IsSpace(r[0])
    decreases |s|
  {
    if s != "" {
      var rest := Collapse(s[1..], IsSpace(s[0]));
      CollapseCollapses(s[1..], IsSpace(s[0]));
      BlankIsSpace();
      hide IsSpace, Collapse;
      if IsSpace(s[0]) {
        if !inRun { CollapsedPrepend(' ', rest); }
      } else {
        CollapsedPrepend(s[0], rest);
      }
      assert Collapse(s, inRun) == (if IsSpace(s[0]) then (if inRun then "" else " ") else [s[0]]) + rest by { CollapseStep(s, inRun); }
      assert "" + rest == rest;
    }
  }

  lemma CollapseStep(s: string, inRun: bool)
    requires s != ""
    ensures Collapse(s, inRun) == (if IsSpace(s[0]) then (if inRun then "" else " ") else [s[0]]) + Collapse(s[1..], IsSpace(s[0]))
  {
  }

  lemma CollapsedPrepend(c: char, rest: string)
    requires Collapsed(rest) && (IsSpace(c) ==> c == ' ' && (rest != "" ==> !IsSpace(rest[0])))
    ensures Collapsed([c] + rest)
  {
    hide IsSpace;
    var all := [c] + rest;
    forall i | 0 <= i < |all| && IsSpace(all[i]) ensures all[i] == ' ' && (i > 0 ==> !IsSpace(all[i - 1])) {
      if i > 0 { assert all[i] == rest[i - 1]; }
      if i > 1 { assert all[i - 1] == rest[i - 2]; }
    }
  }

  /** It keeps the ends white or not as they were, and adds nothing but blanks. */
  lemma {:induction false} CollapseKeeps(s: string, inRun: bool)
    ensures s != "" && !IsSpace(s[0]) ==> Collapse(s, inRun) != "" && Collapse(s, inRun)[0] == s[0]
    ensures s != "" && !IsSpace(s[|s| - 1]) ==>
              var r := Collapse(s, inRun); r != "" && r[|r| - 1] == s[|s| - 1]
    ensures forall c :: c in Collapse(s, inRun) ==> c == ' ' || c in s
    decreases |s|
  {
    if s != "" {
      var rest := Collapse(s[1..], IsSpace(s[0]));
      CollapseStep(s, inRun);
      CollapseKeeps(s[1..], IsSpace(s[0]));
      hide IsSpace, Collapse;
    }
  }

  lemma BlankIsSpace()
    ensures IsSpace(' ')
  {
  }

  function Flush(word: string): seq<string> {
    if word == "" then [] else [word]
  }

  /** The words of a text, `word` being the one read so far. */
  function Words(s: string, word: string): seq<string> {
    if s == "" then Flush(word)
    else if IsSpace(s[0]) then Flush(word) + Words(s[1..], "")
    else Words(s[1..], word + [s[0]])
  }

  /** Collapsing joins and splits no words. */
  lemma {:induction false} CollapseKeepsWords(s: string, inRun: bool, word: string)
    requires inRun ==> word == ""
    ensures Words(Collapse(s, inRun), word) == Words(s, word)
    decreases |s|
  {
    if s != "" {
      var rest := Collapse(s[1..], IsSpace(s[0]));
      CollapseKeepsWords(s[1..], IsSpace(s[0]), if IsSpace(s[0]) then "" else word + [s[0]]);
      BlankIsSpace();
      CollapseStep(s, inRun);
      hide IsSpace, Collapse, Flush;
      var r := Collapse(s, inRun);
      if IsSpace(s[0]) && inRun {
        assert r == rest && Flush("") + Words(rest, "") == Words(rest, "") by { NothingRead(); }
      } else {
        assert r[1..] == rest;
      }
    }
  }

  lemma NothingRead()
    ensures Flush("") == []
  {
  }

  lemma {:induction false} CollapseFixes(s: string, inRun: bool)
    requires Collapsed(s) && (inRun && s != "" ==> !IsSpace(s[0]))
    ensures Collapse(s, inRun) == s
    decreases |s|
  {
    if s != "" {
      assert |s| > 1 && IsSpace(s[0]) ==> !IsSpace(s[1]);
      assert IsSpace(s[0]) ==> s[0] == ' ';
      var rest := s[1..];
      assert forall i :: 0 <= i < |rest| ==> rest[i] == s[i + 1];
      assert Collapsed(rest);
      hide IsSpace, Collapsed;
      CollapseFixes(rest, IsSpace(s[0]));
      assert s == [s[0]] + rest;
    }
  }

  lemma LowerFixes(s: string)
    ensures LowerText(s) == s <==> Lowered(s)
  {
  }

  /** The pattern's texts have no white space and no letters. */
  lemma PatternIsPlain(s: string, i: nat, j: nat)
    requires InPattern(s, i, j)
    ensures forall k :: i <= k < j ==> !IsSpace(s[k]) && !IsUpper(s[k])
  {
    var a: nat, b: nat, c: nat :| Splits(s, i, a, b, c, j);
    assert forall k :: i <= k < j ==> IsDigit(s[k]) || s[k] == '-' || s[k] == '.';
  }

  ghost predicate Plain(s: string) {
    forall k :: 0 <= k < |s| ==> !IsSpace(s[k]) && !IsUpper(s[k])
  }

  /** Nothing, or a number from end to end. */
  ghost predicate NumberOrNothing(s: string) {
    s == "" || InPattern(s, 0, |s|)
  }

  lemma NumericKeeps(s: string)
    ensures NumberOrNothing(NumericText(s))
  {
    hide NumericText, Splits, Leftmost, Longest;
    NumericIsFirstLongest(s);
    if NumericText(s) != "" {
      var i: nat, j: nat :| InPattern(s, i, j) && NumericText(s) == s[i..j] && Leftmost(s, i) && Longest(s, i, j);
      CutOut(s, i, j);
    }
  }

  lemma CutOut(s: string, i: nat, j: nat)
    requires InPattern(s, i, j)
    ensures InPattern(s[i..j], 0, j - i)
  {
    var a: nat, b: nat, c: nat :| Splits(s, i, a, b, c, j);
    var t := s[i..j];
    assert forall k :: 0 <= k < j - i ==> t[k] == s[i + k];
    assert Splits(t, 0, a - i, b - i, c - i, j - i);
  }

  lemma NumericFixes(s: string)
    requires NumberOrNothing(s)
    ensures NumericText(s) == s && Plain(s)
  {
    NumericIsFirstLongest(s);
    if s != "" {
      PatternIsPlain(s, 0, |s|);
      var i: nat, j: nat :| InPattern(s, i, j) && NumericText(s) == s[i..j] && Leftmost(s, i) && Longest(s, i, j);
      assert i == 0 && j >= |s| by { assert !(0 < i); }
      assert j == |s|;
    }
  }

  // ---------------------------------------------------------------------------------------------
  // Steps and lists of steps

  /** The texts a storage step leaves as they are. */
  ghost predicate Settled(step: Step, s: string) {
    match step
    case Trim => Trimmed(s)
    case CollapseWhitespace => Collapsed(s)
    case Lowercase => Lowered(s)
    case Numeric => NumberOrNothing(s)
    case _ => true
  }

  lemma SettledIsFixed(step: Step, s: string)
    requires IsStorage(step) && Settled(step, s)
    ensures Apply(step, s) == s
  {
    hide TrimText, Collapse, LowerText, NumericText, Trimmed, Collapsed, Lowered, NumberOrNothing;
    match step
    case Trim => TrimFixes(s);
    case CollapseWhitespace => CollapseFixes(s, false);
    case Lowercase => LowerFixes(s);
    case Numeric => NumericFixes(s);
    case _ =>
  }

  lemma StepSettles(step: Step, s: string)
    requires IsStorage(step)
    ensures Settled(step, Apply(step, s))
  {
    hide TrimText, Collapse, NumericText, Trimmed, Collapsed, NumberOrNothing;
    match step
    case Trim => var i, j := TrimMeaning(s);
    case CollapseWhitespace => CollapseCollapses(s, false);
    case Lowercase =>
    case Numeric => NumericKeeps(s);
    case _ =>
  }

  lemma PlainIsSettled(s: string)
    requires Plain(s)
    ensures Trimmed(s) && Collapsed(s) && Lowered(s)
  {
  }

  lemma StretchSettled(step: Step, s: string, i: nat, j: nat)
    requires i <= j <= |s| && step in {CollapseWhitespace, Lowercase} && Settled(step, s)
    ensures Settled(step, s[i..j])
  {
    var t := s[i..j];
    assert forall k :: 0 <= k < |t| ==> t[k] == s[i + k];
  }

  /** No storage step undoes another. */
  lemma StepKeepsSettled(done: Step, next: Step, s: string)
    requires IsStorage(done) && IsStorage(next) && Settled(done, s)
    ensures Settled(done, Apply(next, s))
  {
    hide Apply, Settled;
    if done == next {
      StepSettles(next, s);
    } else if done == Numeric {
      NumberKept(next, s);
    } else if next == Numeric {
      NumericGivesPlain(done, s);
    } else if next == Trim {
      TrimKeepsSettled(done, s);
    } else if next == CollapseWhitespace {
      CollapseKeepsSettled(done, s);
    } else {
      LowerKeepsSettled(done, s);
    }
  }

  lemma NumberKept(next: Step, s: string)
    requires IsStorage(next) && next != Numeric && Settled(Numeric, s)
    ensures Settled(Numeric, Apply(next, s))
  {
    NumericFixes(s);
    PlainIsSettled(s);
    hide Plain, NumericText, Apply;
    SettledIsFixed(next, s);
  }

  lemma NumericGivesPlain(done: Step, s: string)
    requires IsStorage(done) && done != Numeric
    ensures Settled(done, Apply(Numeric, s))
  {
    NumericKeeps(s);
    NumericFixes(NumericText(s));
    PlainIsSettled(NumericText(s));
  }

  lemma TrimKeepsSettled(done: Step, s: string)
    requires done in {CollapseWhitespace, Lowercase} && Settled(done, s)
    ensures Settled(done, Apply(Trim, s))
  {
    hide TrimText, Trimmed, Settled;
    var i, j := TrimMeaning(s);
    StretchSettled(done, s, i, j);
  }

  lemma CollapseKeepsSettled(done: Step, s: string)
    requires done in {Trim, Lowercase} && Settled(done, s)
    ensures Settled(done, Apply(CollapseWhitespace, s))
  {
    CollapseKeeps(s, false);
    var r := Collapse(s, false);
    if done == Lowercase {
      forall k | 0 <= k < |r| ensures !IsUpper(r[k]) { assert r[k] in r; }
    } else if s == "" {
      assert r == "";
    }
  }

  lemma LowerKeepsSettled(done: Step, s: string)
    requires done in {Trim, CollapseWhitespace} && Settled(done, s)
    ensures Settled(done, Apply(Lowercase, s))
  {
    var r := LowerText(s);
    forall k | 0 <= k < |s| ensures IsSpace(r[k]) <==> IsSpace(s[k]) { LowerKeepsSpace(s[k]); }
    assert forall k :: 0 <= k < |s| && s[k] == ' ' ==> r[k] == ' ';
    hide Lower, IsSpace;
  }

  lemma LowerKeepsSpace(c: char)
    ensures IsSpace(Lower(c)) <==> IsSpace(c)
    ensures c == ' ' ==> Lower(c) == ' '
  {
  }

  /** After the whole list, the value is settled for every step in it. */
  lemma {:induction false} ListSettles(raw: string, policy: seq<Step>)
    requires forall step :: step in policy ==> IsStorage(step)
    ensures forall step :: step in policy ==> Settled(step, Sanitised(raw, policy))
    decreases |policy|
  {
    hide Apply, Settled, IsStorage;
    if policy != [] {
      var front, last := policy[..|policy| - 1], policy[|policy| - 1];
      assert last in policy && forall step :: step in policy <==> step in front || step == last;
      ListSettles(raw, front);
      var v := Sanitised(raw, front);
      StepSettles(last, v);
      forall step | step in front ensures Settled(step, Apply(last, v)) { StepKeepsSettled(step, last, v); }
    }
  }

  lemma {:induction false} SettledListFixes(v: string, policy: seq<Step>)
    requires forall step :: step in policy ==> IsStorage(step) && Settled(step, v)
    ensures Sanitised(v, policy) == v
    decreases |policy|
  {
    hide Apply, Settled, IsStorage;
    if policy != [] {
      assert policy[|policy| - 1] in policy;
      SettledListFixes(v, policy[..|policy| - 1]);
      SettledIsFixed(policy[|policy| - 1], v);
    }
  }

  /** Storing what was stored changes nothing, for every list of steps. */
  lemma StoringIsIdempotent(raw: string, policy: seq<Step>)
    ensures SanitiseForStore(SanitiseForStore(raw, policy), policy) == SanitiseForStore(raw, policy)
  {
    hide Sanitised, Settled, IsStorage;
    ListSettles(raw, StorageSteps(policy));
    SettledListFixes(SanitiseForStore(raw, policy), StorageSteps(policy));
  }

  /** What the stored value is like: each storage step listed has left its mark. */
  lemma StoredIsSettled(raw: string, policy: seq<Step>)
    ensures var v := SanitiseForStore(raw, policy);
            && (Trim in policy ==> Trimmed(v))
            && (CollapseWhitespace in policy ==> Collapsed(v))
            && (Lowercase in policy ==> Lowered(v))
            && (Numeric in policy ==> NumberOrNothing(v))
  {
    hide Sanitised, Trimmed, Collapsed, Lowered, NumberOrNothing;
    ListSettles(raw, StorageSteps(policy));
    assert forall step :: step in policy && IsStorage(step) ==> Settled(step, SanitiseForStore(raw, policy));
  }

  /** The two steps kept from storage are the ones that are not idempotent. */
  lemma OutputStepsAreNot()
    ensures Apply(StripHtml, Apply(StripHtml, "<<b>i>")) != Apply(StripHtml, "<<b>i>")
    ensures Apply(EscapeHtml, Apply(EscapeHtml, "&")) != Apply(EscapeHtml, "&")
  {
    NestedTag();
    HtmlEscaping.EscapeOne('&');
    assert '&' in "&amp;" by { assert "&amp;"[0] == '&'; }
    HtmlEscaping.EscapeFixesPlainText("&amp;");
  }

  lemma NestedTag()
    ensures StripTags("<<b>i>") == "<i>" && StripTags("<i>") == ""
  {
    var s := "<<b>i>";
    assert TagLength(s) == 0;
    assert s[1..] == "<b>i>";
    assert TagEnd("<b>i>", 1) == TagEnd("<b>i>", 2) == 3;
    assert "<b>i>"[3..] == "i>";
    assert StripTags("i>") == "i>" by {
      assert "i>"[1..] == ">" && ">"[1..] == "";
    }
    assert TagEnd("<i>", 1) == TagEnd("<i>", 2) == 3;
    assert "<i>"[3..] == "";
  }

  /** Some `<` comes before some `>`. */
  predicate OpensThenCloses(s: string) {
    exists i, j :: 0 <= i < j < |s| && s[i] == '<' && s[j] == '>'
  }

  /** Stripping changes a text, and then shortens it, exactly if some `<` comes before some `>`. */
  lemma {:induction false} StripShortens(s: string)
    ensures |StripTags(s)| <= |s|
    ensures StripTags(s) == s <==> !OpensThenCloses(s)
    ensures OpensThenCloses(s) ==> |StripTags(s)| < |s|
    decreases |s|
  {
    hide TagLength;
    if s != "" {
      TagIsPair(s);
      if TagLength(s) > 0 {
        StripShortens(s[TagLength(s)..]);
      } else {
        StripShortens(s[1..]);
        PairMovesOn(s);
        assert s == [s[0]] + s[1..];
      }
    }
  }

  lemma TagIsPair(s: string)
    ensures TagLength(s) > 0 ==> OpensThenCloses(s)
  {
    if TagLength(s) > 0 {
      EndsInClose(s, 1);
      assert s[0] == '<' && s[TagLength(s) - 1] == '>';
    }
  }

  lemma {:induction false} EndsInClose(s: string, i: nat)
    requires 0 < i <= |s| && TagEnd(s, i) > 0
    ensures i < TagEnd(s, i) <= |s| && s[TagEnd(s, i) - 1] == '>'
    decreases |s| - i
  {
    if s[i] != '>' { EndsInClose(s, i + 1); }
  }

  /** What does not start with a tag has its pairs behind the first character. */
  lemma PairMovesOn(s: string)
    requires s != "" && TagLength(s) == 0
    ensures OpensThenCloses(s) <==> OpensThenCloses(s[1..])
  {
    if i, j :| 0 <= i < j < |s| && s[i] == '<' && s[j] == '>' {
      var k := i;
      if i == 0 { k := ScanStops(s, 1, j); }
      assert s[1..][k - 1] == '<' && s[1..][j - 1] == '>';
    }
    if i, j :| 0 <= i < j < |s[1..]| && s[1..][i] == '<' && s[1..][j] == '>' {
      assert s[i + 1] == '<' && s[j + 1] == '>';
    }
  }

  lemma {:induction false} ScanStops(s: string, i: nat, j: nat) returns (k: nat)
    requires 0 < i <= j < |s| && s[j] == '>' && TagEnd(s, i) == 0
    ensures i <= k < j && s[k] == '<'
    decreases |s| - i
  {
    if s[i] == '<' { k := i; } else { k := ScanStops(s, i + 1, j); }
  }

  /** When applying an output step twice is harmless: nothing to escape, or no tag left to show. */
  lemma OutputStepsTwice(s: string)
    ensures Apply(EscapeHtml, Apply(EscapeHtml, s)) == Apply(EscapeHtml, s) <==> forall c :: c in s ==> !HtmlEscaping.Special(c)
    ensures Apply(StripHtml, Apply(StripHtml, s)) == Apply(StripHtml, s) <==> !OpensThenCloses(StripTags(s))
  {
    hide StripTags, OpensThenCloses, HtmlEscaping.EscapeHtml;
    StripShortens(StripTags(s));
    HtmlEscaping.EscapeFixesPlainText(s);
    if HtmlEscaping.EscapeHtml(HtmlEscaping.EscapeHtml(s)) == HtmlEscaping.EscapeHtml(s) {
      HtmlEscaping.EscapeIsInjective(HtmlEscaping.EscapeHtml(s), s);
    }
  }
}
