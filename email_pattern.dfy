/**
 * The sign-up form's email rule, the ECMAScript pattern
 * `/^[\w-]+@([\w-]+\.)+[\w-]{2,4}$/` (src/components/SignUpForm.tsx).
 *
 * `Matches` reads the string once, left to right, the way the pattern's
 * automaton does: a local part, one `@`, then domain labels ended by dots,
 * and a final label. `MatchesIffShape` ties it to the structural reading of
 * the pattern, `local@l1.l2. … .lk` with a constrained final label, and the
 * lemmas after it derive what the rule rejects.
 */
module EmailPattern {

  /** `[\w-]` without the `u` flag: an ASCII letter or digit, `_` or `-`. */
  predicate IsWordChar(c: char)
  {
    || ('a' <= c <= 'z')
    || ('A' <= c <= 'Z')
    || ('0' <= c <= '9')
    || c == '_'
    || c == '-'
  }

  /** `[\w-]*` */
  predicate IsWord(w: string)
  {
    forall i :: 0 <= i < |w| ==> IsWordChar(w[i])
  }

  /** The domain after `@`: `run` characters of the current label are read,
      and `dotted` once some label has been closed by a `.`. The end is
      accepted after at least one dot and a final label of 2 to 4 characters. */
  function ScanDomain(t: string, run: nat, dotted: bool): bool
    decreases |t|
  {
    if t == [] then dotted && 2 <= run <= 4
    else if t[0] == '.' then run > 0 && ScanDomain(t[1..], 0, true)
    else IsWordChar(t[0]) && ScanDomain(t[1..], run + 1, dotted)
  }

  /** The local part before `@`, of which `run` characters are read. */
  function ScanLocal(t: string, run: nat): bool
    decreases |t|
  {
    if t == [] then false
    else if t[0] == '@' then run > 0 && ScanDomain(t[1..], 0, false)
    else IsWordChar(t[0]) && ScanLocal(t[1..], run + 1)
  }

  /** `/^[\w-]+@([\w-]+\.)+[\w-]{2,4}$/.test(s)` */
  predicate Matches(s: string)
  {
    ScanLocal(s, 0)
  }

  /** `l1.l2. … .lk.`: each label followed by a dot, what `([\w-]+\.)+`
      matches when every label is a non-empty word. */
  function Dotted(labels: seq<string>): string
  {
    if labels == [] then "" else labels[0] + "." + Dotted(labels[1..])
  }

  predicate LabelsOk(labels: seq<string>)
  {
    forall i :: 0 <= i < |labels| ==> |labels[i]| > 0 && IsWord(labels[i])
  }

  /** `d` is `l1. … .lk` followed by a final label of 2 to 4 word characters. */
  predicate DomainShape(d: string, labels: seq<string>, last: string)
  {
    && d == Dotted(labels) + last
    && LabelsOk(labels)
    && IsWord(last)
    && 2 <= |last| <= 4
  }

  /** `s` is `local@l1. … .lk.last`, with a non-empty word as local part, at
      least one label before the final one, every label a non-empty word and
      a final label of 2 to 4 word characters. */
  predicate Shape(s: string, local: string, labels: seq<string>, last: string)
  {
    && s == local + "@" + (Dotted(labels) + last)
    && |local| > 0
    && IsWord(local)
    && |labels| >= 1
    && LabelsOk(labels)
    && IsWord(last)
    && 2 <= |last| <= 4
  }

  ghost predicate HasEmailShape(s: string)
  {
    exists local, labels, last :: Shape(s, local, labels, last)
  }

  lemma {:induction false} ScanDomainWord(w: string, rest: string, run: nat, dotted: bool)
    requires IsWord(w)
    ensures ScanDomain(w + rest, run, dotted) == ScanDomain(rest, run + |w|, dotted)
    decreases |w|
  {
    if w != [] {
      assert (w + rest)[0] == w[0];
      assert (w + rest)[1..] == w[1..] + rest;
      ScanDomainWord(w[1..], rest, run + 1, dotted);
    } else {
      assert w + rest == rest;
    }
  }

  lemma {:induction false} ScanDomainDotted(labels: seq<string>, last: string, dotted: bool)
    requires LabelsOk(labels) && IsWord(last)
    ensures ScanDomain(Dotted(labels) + last, 0, dotted) == ((dotted || |labels| >= 1) && 2 <= |last| <= 4)
    decreases |labels|
  {
    if labels == [] {
      assert Dotted(labels) + last == last + [];
      ScanDomainWord(last, [], 0, dotted);
    } else {
      var l := labels[0];
      var tail := Dotted(labels[1..]) + last;
      assert Dotted(labels) + last == l + ("." + tail);
      ScanDomainWord(l, "." + tail, 0, dotted);
      assert ("." + tail)[1..] == tail;
      ScanDomainDotted(labels[1..], last, true);
    }
  }

  lemma {:induction false} ScanLocalWord(w: string, rest: string, run: nat)
    requires IsWord(w)
    ensures ScanLocal(w + "@" + rest, run) == (run + |w| > 0 && ScanDomain(rest, 0, false))
    decreases |w|
  {
    if w != [] {
      assert (w + "@" + rest)[0] == w[0];
      assert (w + "@" + rest)[1..] == w[1..] + "@" + rest;
      ScanLocalWord(w[1..], rest, run + 1);
    } else {
      assert w + "@" + rest == "@" + rest;
      assert ("@" + rest)[1..] == rest;
    }
  }

  /** What the domain scanner accepts, after the label prefix `p`, has the
      domain shape; the labels and the final label are returned. */
  lemma {:induction false} ScanDomainSound(t: string, p: string, dotted: bool) returns (labels: seq<string>, last: string)
    requires IsWord(p) && ScanDomain(t, |p|, dotted)
    ensures DomainShape(p + t, labels, last) && (dotted || |labels| >= 1)
    decreases |t|
  {
    if t == [] {
      labels, last := [], p;
      assert p + t == Dotted(labels) + last;
    } else if t[0] == '.' {
      var ls, l := ScanDomainSound(t[1..], "", true);
      assert "" + t[1..] == t[1..];
      labels, last := [p] + ls, l;
      DottedCons(p, ls, l, t);
    } else {
      var p' := p + [t[0]];
      WordSnoc(p, t[0]);
      assert p' + t[1..] == p + t;
      labels, last := ScanDomainSound(t[1..], p', dotted);
    }
  }

  /** A word extended by a word character is a word. */
  lemma WordSnoc(w: string, c: char)
    requires IsWord(w) && IsWordChar(c)
    ensures IsWord(w + [c])
  {
    assert forall i :: 0 <= i < |w| ==> (w + [c])[i] == w[i];
  }

  lemma DottedCons(p: string, ls: seq<string>, l: string, t: string)
    requires t != [] && t[0] == '.' && t[1..] == Dotted(ls) + l
    ensures p + t == Dotted([p] + ls) + l
  {
    var labels := [p] + ls;
    assert labels[0] == p && labels[1..] == ls;
    assert t == "." + t[1..];
  }

  lemma {:induction false} ScanLocalSound(t: string, p: string) returns (local: string, labels: seq<string>, last: string)
    requires IsWord(p) && ScanLocal(t, |p|)
    ensures Shape(p + t, local, labels, last)
    decreases |t|
  {
    if t[0] == '@' {
      labels, last := ScanDomainSound(t[1..], "", false);
      assert "" + t[1..] == t[1..];
      local := p;
      ShapeAtSign(p, t, labels, last);
    } else {
      var p' := p + [t[0]];
      WordSnoc(p, t[0]);
      assert p' + t[1..] == p + t;
      local, labels, last := ScanLocalSound(t[1..], p');
    }
  }

  /** A non-empty word, then `@` and a domain of the right shape. */
  lemma ShapeAtSign(p: string, t: string, labels: seq<string>, last: string)
    requires IsWord(p) && |p| > 0
    requires t != [] && t[0] == '@' && DomainShape(t[1..], labels, last) && |labels| >= 1
    ensures Shape(p + t, p, labels, last)
  {
    assert t == "@" + t[1..];
  }

  /** The scanner accepts exactly the strings of the pattern's structural
      form. */
  lemma MatchesIffShape(s: string)
    ensures Matches(s) <==> HasEmailShape(s)
  {
    if Matches(s) {
      var local, labels, last := ScanLocalSound(s, "");
      assert "" + s == s;
    }
    if HasEmailShape(s) {
      var local, labels, last :| Shape(s, local, labels, last);
      ScanLocalWord(local, Dotted(labels) + last, 0);
      ScanDomainDotted(labels, last, false);
    }
  }

  /** Every character of a dotted label run is a word character or a dot,
      and the run ends with a dot. */
  lemma {:induction false} DottedChars(labels: seq<string>)
    requires LabelsOk(labels)
    ensures forall i :: 0 <= i < |Dotted(labels)| ==> Dotted(labels)[i] == '.' || IsWordChar(Dotted(labels)[i])
    ensures |labels| >= 1 ==> |Dotted(labels)| >= 1 && Dotted(labels)[|Dotted(labels)| - 1] == '.'
    decreases |labels|
  {
    if labels != [] {
      var l := labels[0];
      var rest := Dotted(labels[1..]);
      DottedChars(labels[1..]);
      assert Dotted(labels) == l + ("." + rest);
      forall i | 0 <= i < |Dotted(labels)| ensures Dotted(labels)[i] == '.' || IsWordChar(Dotted(labels)[i]) {
        if i < |l| {
          assert Dotted(labels)[i] == l[i];
        } else if i > |l| {
          assert Dotted(labels)[i] == rest[i - |l| - 1];
        }
      }
    }
  }

  /** In a dotted label run followed by a non-empty final label, no dot
      starts the run and no dot follows a dot. */
  lemma {:induction false} DottedNoEmptyLabel(labels: seq<string>, last: string)
    requires LabelsOk(labels) && IsWord(last) && |last| > 0
    ensures var d := Dotted(labels) + last;
      && d[0] != '.'
      && forall i :: 0 <= i < |d| - 1 && d[i] == '.' ==> d[i + 1] != '.'
    decreases |labels|
  {
    var d := Dotted(labels) + last;
    if labels == [] {
      assert d == last;
    } else {
      var l := labels[0];
      var tail := Dotted(labels[1..]) + last;
      DottedNoEmptyLabel(labels[1..], last);
      assert d == l + ("." + tail);
      assert d[0] == l[0];
      forall i | 0 <= i < |d| - 1 && d[i] == '.' ensures d[i + 1] != '.' {
        if i == |l| {
          assert d[i + 1] == tail[0];
        } else if i > |l| {
          assert d[i] == tail[i - |l| - 1];
          assert d[i + 1] == tail[i - |l|];
        }
      }
    }
  }

  /** Where the `@`, the dots and the word characters of a matching string
      stand, read off its shape. */
  lemma ShapeChars(s: string, local: string, labels: seq<string>, last: string)
    requires Shape(s, local, labels, last)
    ensures s[|local|] == '@'
    ensures forall i :: 0 <= i < |local| ==> IsWordChar(s[i])
    ensures forall i :: |local| < i < |s| ==> s[i] == '.' || IsWordChar(s[i])
    ensures var m := |local| + |Dotted(labels)|; s[m] == '.' && |s| - m - 1 == |last|
    ensures forall i :: |s| - |last| <= i < |s| ==> IsWordChar(s[i])
  {
    var d := Dotted(labels);
    DottedChars(labels);
    forall i | 0 <= i < |local| ensures IsWordChar(s[i]) {
      assert s[i] == local[i];
    }
    forall i | |local| < i < |s| ensures s[i] == '.' || IsWordChar(s[i]) {
      if i <= |local| + |d| {
        assert s[i] == d[i - |local| - 1];
      } else {
        assert s[i] == last[i - |local| - 1 - |d|];
      }
    }
    assert s[|local| + |d|] == d[|d| - 1];
    forall i | |s| - |last| <= i < |s| ensures IsWordChar(s[i]) {
      assert s[i] == last[i - (|s| - |last|)];
    }
  }

  /** An accepted email has exactly one `@`. */
  lemma SingleAt(s: string, i: int, j: int)
    requires Matches(s)
    requires 0 <= i < |s| && 0 <= j < |s| && s[i] == '@' && s[j] == '@'
    ensures i == j
  {
    MatchesIffShape(s);
    var local, labels, last :| Shape(s, local, labels, last);
    ShapeChars(s, local, labels, last);
  }

  /** An accepted email has no dot before its `@`: its local part holds no
      dot. */
  lemma NoDotInLocalPart(s: string, i: int, j: int)
    requires Matches(s)
    requires 0 <= i < |s| && 0 <= j < |s| && s[i] == '.' && s[j] == '@'
    ensures j < i
  {
    MatchesIffShape(s);
    var local, labels, last :| Shape(s, local, labels, last);
    ShapeChars(s, local, labels, last);
    SingleAt(s, j, |local|);
  }

  /** An accepted email has a non-empty local part and no empty domain label:
      no dot right after the `@`, no two dots in a row, no dot at the end. */
  lemma NoEmptyLabel(s: string)
    requires Matches(s)
    ensures s[0] != '@'
    ensures s[|s| - 1] != '.'
    ensures forall i :: 0 <= i < |s| - 1 && (s[i] == '@' || s[i] == '.') ==> s[i + 1] != '.'
  {
    MatchesIffShape(s);
    var local, labels, last :| Shape(s, local, labels, last);
    ShapeChars(s, local, labels, last);
    var d := Dotted(labels) + last;
    DottedNoEmptyLabel(labels, last);
    assert s[0] == local[0];
    forall i | 0 <= i < |s| - 1 && (s[i] == '@' || s[i] == '.') ensures s[i + 1] != '.' {
      SingleAtOrDot(s, local, labels, last, i);
      assert s[i + 1] == d[i - |local|];
      if s[i] == '.' {
        assert s[i] == d[i - |local| - 1];
      }
    }
  }

  lemma SingleAtOrDot(s: string, local: string, labels: seq<string>, last: string, i: int)
    requires Shape(s, local, labels, last)
    requires 0 <= i < |s| && (s[i] == '@' || s[i] == '.')
    ensures s[i] == '@' ==> i == |local|
    ensures s[i] == '.' ==> i > |local|
  {
    ShapeChars(s, local, labels, last);
  }

  /** An accepted email has a dot somewhere after its `@`. */
  lemma DotAfterAt(s: string, j: int) returns (k: int)
    requires Matches(s)
    requires 0 <= j < |s| && s[j] == '@'
    ensures j < k < |s| && s[k] == '.'
  {
    MatchesIffShape(s);
    var local, labels, last :| Shape(s, local, labels, last);
    ShapeChars(s, local, labels, last);
    SingleAtOrDot(s, local, labels, last, j);
    DottedChars(labels);
    k := |local| + |Dotted(labels)|;
  }

  /** In an accepted email, the label after the last dot has 2 to 4
      characters. */
  lemma FinalLabelLength(s: string, k: int)
    requires Matches(s)
    requires 0 <= k < |s| && s[k] == '.'
    requires forall i :: k < i < |s| ==> s[i] != '.'
    ensures 2 <= |s| - k - 1 <= 4
  {
    MatchesIffShape(s);
    var local, labels, last :| Shape(s, local, labels, last);
    ShapeChars(s, local, labels, last);
  }

  /** A string the rule accepts: `ab@cd.ef`. */
  lemma AcceptedExample()
    ensures Matches("ab@cd.ef")
  {
    assert Dotted(["cd"]) == "cd.";
    assert "ab@cd.ef" == "ab" + "@" + (Dotted(["cd"]) + "ef");
    ScanLocalWord("ab", Dotted(["cd"]) + "ef", 0);
    ScanDomainDotted(["cd"], "ef", false);
  }

  /** A string the rule accepts: `a_b-1@x.y-z.com`. */
  lemma AcceptedLabelsExample()
    ensures Matches("a_b-1@x.y-z.com")
  {
    assert "a_b-1@x.y-z.com" == "a_b-1" + "@" + "x.y-z.com";
    ScanLocalWord("a_b-1", "x.y-z.com", 0);
    LabelsDomainExample();
  }

  /** The domain part `x.y-z.com`: two labels before the final one. */
  lemma LabelsDomainExample()
    ensures ScanDomain("x.y-z.com", 0, false)
  {
    assert Dotted(["y-z"]) == "y-z.";
    assert Dotted(["x", "y-z"]) == "x." + Dotted(["y-z"]);
    assert "x.y-z.com" == Dotted(["x", "y-z"]) + "com";
    ScanDomainDotted(["x", "y-z"], "com", false);
  }

  /** A dot in the local part, and a second `@`. */
  lemma RejectedLocalExamples()
    ensures !Matches("a.b@cd.ef")
    ensures !Matches("a@b@cd.ef")
  {
    if Matches("a.b@cd.ef") { NoDotInLocalPart("a.b@cd.ef", 1, 3); }
    if Matches("a@b@cd.ef") { SingleAt("a@b@cd.ef", 1, 3); }
  }

  /** An empty domain label. */
  lemma RejectedEmptyLabelExample()
    ensures !Matches("a@b..cd")
  {
    if Matches("a@b..cd") { NoEmptyLabel("a@b..cd"); }
  }

  /** No dot after the `@`. */
  lemma RejectedNoDotExample()
    ensures !Matches("a@bcd")
  {
    if Matches("a@bcd") { var k := DotAfterAt("a@bcd", 1); }
  }

  /** Final labels of 1 and of 5 characters. */
  lemma RejectedFinalLabelExamples()
    ensures !Matches("a@b.c")
    ensures !Matches("a@b.cdefg")
  {
    if Matches("a@b.c") { FinalLabelLength("a@b.c", 3); }
    if Matches("a@b.cdefg") { FinalLabelLength("a@b.cdefg", 3); }
  }
}
