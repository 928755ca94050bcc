/**
 The Subject rewrite the SMTP relay applies to every message before sending it:
 `data.replace(b'\r\nSubject: ', b'\r\nSubject: [NOT FOUND] ')`. It is a plain byte
 substitution with the semantics of Python's `bytes.replace`: the input is scanned left to
 right and every non-overlapping occurrence of the pattern is replaced, body lines included.
 */
module SubjectRewrite {
  import opened Types

  const CR: Byte := 0x0D
  const LF: Byte := 0x0A

  /** `Subject:` */
  const SubjectColon: Bytes := [0x53, 0x75, 0x62, 0x6A, 0x65, 0x63, 0x74, 0x3A]

  /** `subject:`, the same header name in lower case. */
  const LowerSubjectColon: Bytes := [0x73, 0x75, 0x62, 0x6A, 0x65, 0x63, 0x74, 0x3A]

  const Space: Byte := 0x20

  /** The bytes searched for: `\r\nSubject: `. */
  const Pattern: Bytes := [0x0D, 0x0A, 0x53, 0x75, 0x62, 0x6A, 0x65, 0x63, 0x74, 0x3A, 0x20]

  /** The bytes inserted after each match: `[NOT FOUND] `. */
  const Tag: Bytes := [0x5B, 0x4E, 0x4F, 0x54, 0x20, 0x46, 0x4F, 0x55, 0x4E, 0x44, 0x5D, 0x20]

  /** What each match is replaced with: `\r\nSubject: [NOT FOUND] `. */
  const Replacement: Bytes := Pattern + Tag

  predicate StartsWith(s: Bytes, p: Bytes) {
    |p| <= |s| && s[..|p|] == p
  }

  /** Python's `s.replace(Pattern, Replacement)`: leftmost match first, no overlaps. */
  function Rewrite(s: Bytes): (r: Bytes)
    ensures |s| <= |r|
    ensures StartsWith(s, Pattern) ==> |s| + |Tag| <= |r|
    ensures |r| == |s| ==> r == s
    decreases |s|
  {
    if StartsWith(s, Pattern) then Replacement + Rewrite(s[|Pattern|..])
    else if |s| == 0 then []
    else [s[0]] + Rewrite(s[1..])
  }

  /** The number of positions of s at which the pattern starts (a count independent of the scan). */
  function Occurrences(s: Bytes): nat
    decreases |s|
  {
    if |s| == 0 then 0
    else (if StartsWith(s, Pattern) then 1 else 0) + Occurrences(s[1..])
  }

  /** The pattern starts nowhere in s. */
  predicate Absent(s: Bytes) {
    forall i :: 0 <= i <= |s| ==> !StartsWith(s[i..], Pattern)
  }

  /** Removes the inserted `[NOT FOUND] ` after every `\r\nSubject: `. */
  function Strip(t: Bytes): Bytes
    decreases |t|
  {
    if StartsWith(t, Replacement) then Pattern + Strip(t[|Replacement|..])
    else if |t| == 0 then []
    else [t[0]] + Strip(t[1..])
  }

  /* ---------------- facts about the pattern ---------------- */

  /** A prefix free of CR hides no match: matches can only start at a CR. */
  lemma {:induction false} OccurrencesSkipNoCr(s: Bytes, j: nat)
    requires j <= |s|
    requires forall i :: 0 <= i < j ==> s[i] != CR
    ensures Occurrences(s) == Occurrences(s[j..])
    decreases j
  {
    if j > 0 {
      assert !StartsWith(s, Pattern) by { assert s[0] != Pattern[0]; }
      assert s[1..][j - 1..] == s[j..];
      OccurrencesSkipNoCr(s[1..], j - 1);
    }
  }

  /** Two matches never overlap: after a match the next one starts at least |Pattern| later. */
  lemma OccurrencesAfterMatch(s: Bytes)
    requires StartsWith(s, Pattern)
    ensures Occurrences(s) == 1 + Occurrences(s[|Pattern|..])
  {
    var u := s[1..];
    assert forall i :: 0 <= i < |Pattern| - 1 ==> u[i] == Pattern[i + 1];
    OccurrencesSkipNoCr(u, |Pattern| - 1);
    assert u[|Pattern| - 1..] == s[|Pattern|..];
  }

  /* ---------------- properties of the rewrite ---------------- */

  /** Each match grows the message by the 12 bytes of `[NOT FOUND] `. */
  lemma {:induction false} RewriteLength(s: Bytes)
    ensures |Rewrite(s)| == |s| + |Tag| * Occurrences(s)
    decreases |s|
  {
    if StartsWith(s, Pattern) {
      OccurrencesAfterMatch(s);
      RewriteLength(s[|Pattern|..]);
    } else if |s| > 0 {
      RewriteLength(s[1..]);
    }
  }

  /** No match anywhere: the message is sent byte for byte as fetched. */
  lemma {:induction false} UnchangedWhenAbsent(s: Bytes)
    requires Absent(s)
    ensures Rewrite(s) == s
    decreases |s|
  {
    assert !StartsWith(s[0..], Pattern);
    assert s[0..] == s;
    if |s| > 0 {
      assert Absent(s[1..]) by {
        forall i | 0 <= i <= |s[1..]|
          ensures !StartsWith(s[1..][i..], Pattern)
        {
          assert s[1..][i..] == s[i + 1..];
        }
      }
      UnchangedWhenAbsent(s[1..]);
    }
  }

  /** A match somewhere is counted. */
  lemma {:induction false} PresentIsCounted(s: Bytes, i: nat)
    requires i <= |s| && StartsWith(s[i..], Pattern)
    ensures Occurrences(s) > 0
    decreases i
  {
    if i > 0 {
      if !StartsWith(s, Pattern) {
        assert s[1..][i - 1..] == s[i..];
        PresentIsCounted(s[1..], i - 1);
      }
    } else {
      assert s[0..] == s;
    }
  }

  /** The rewrite leaves the message unchanged exactly when the pattern does not occur in it. */
  lemma RewriteIdentityIff(s: Bytes)
    ensures Rewrite(s) == s <==> Absent(s)
  {
    if Absent(s) {
      UnchangedWhenAbsent(s);
    } else {
      var i :| 0 <= i <= |s| && StartsWith(s[i..], Pattern);
      PresentIsCounted(s, i);
      RewriteLength(s);
      assert |Rewrite(s)| > |s|;
    }
  }

  /** Bytes before the first CR are copied through, whatever follows. */
  lemma {:induction false} CrFreePrefixKept(w: Bytes, u: Bytes)
    requires forall i :: 0 <= i < |w| ==> w[i] != CR
    ensures Rewrite(w + u) == w + Rewrite(u)
    decreases |w|
  {
    if |w| > 0 {
      var s := w + u;
      assert s[0] == w[0] != CR;
      assert !StartsWith(s, Pattern);
      assert Rewrite(s) == [s[0]] + Rewrite(s[1..]);
      assert s[1..] == w[1..] + u;
      assert forall i :: 0 <= i < |w| - 1 ==> w[1..][i] != CR;
      CrFreePrefixKept(w[1..], u);
      calc {
        Rewrite(s);
        [w[0]] + (w[1..] + Rewrite(u));
        ([w[0]] + w[1..]) + Rewrite(u);
        { assert w == [w[0]] + w[1..]; }
        w + Rewrite(u);
      }
    } else {
      assert w + u == u;
    }
  }

  /** The header line after a CRLF gets the tag inserted after `Subject: `. */
  lemma SubjectLineTagged(u: Bytes)
    ensures Rewrite(Pattern + u) == Pattern + Tag + Rewrite(u)
  {
    assert (Pattern + u)[..|Pattern|] == Pattern;
    assert (Pattern + u)[|Pattern|..] == u;
  }

  /** `Subject: ` on byte 0 has no CRLF before it and is left alone. */
  lemma LeadingSubjectKept(u: Bytes)
    ensures Rewrite(SubjectColon + [Space] + u) == SubjectColon + [Space] + Rewrite(u)
  {
    CrFreePrefixKept(SubjectColon + [Space], u);
  }

  /** A line break that does not open a match is copied through with the CR-free text after it. */
  lemma {:induction false} UnmatchedLineKept(h: Bytes, u: Bytes)
    requires forall i :: 0 <= i < |h| ==> h[i] != CR
    requires !StartsWith([CR, LF] + h + u, Pattern)
    ensures Rewrite([CR, LF] + h + u) == [CR, LF] + h + Rewrite(u)
  {
    var s := [CR, LF] + h + u;
    var w := [LF] + h;
    assert s[1..] == w + u;
    assert forall i :: 0 <= i < |w| ==> w[i] != CR;
    CrFreePrefixKept(w, u);
    assert Rewrite(s) == [CR] + (w + Rewrite(u));
  }

  /** `Subject:` not followed by a space is left alone. */
  lemma NoSpaceSubjectKept(u: Bytes)
    requires |u| == 0 || u[0] != Space
    ensures Rewrite([CR, LF] + SubjectColon + u) == [CR, LF] + SubjectColon + Rewrite(u)
  {
    NoSpaceNoMatch(u);
    UnmatchedLineKept(SubjectColon, u);
  }

  lemma NoSpaceNoMatch(u: Bytes)
    requires |u| == 0 || u[0] != Space
    ensures forall i :: 0 <= i < |SubjectColon| ==> SubjectColon[i] != CR
    ensures !StartsWith([CR, LF] + SubjectColon + u, Pattern)
  {
    var s := [CR, LF] + SubjectColon + u;
    if |u| > 0 {
      assert s[10] == u[0];
    }
  }

  /** A lower-case `subject: ` header is left alone: the match is case-sensitive. */
  lemma LowerCaseSubjectKept(u: Bytes)
    ensures Rewrite([CR, LF] + LowerSubjectColon + [Space] + u)
         == [CR, LF] + LowerSubjectColon + [Space] + Rewrite(u)
  {
    var h := LowerSubjectColon + [Space];
    assert [CR, LF] + LowerSubjectColon + [Space] + u == [CR, LF] + h + u;
    assert !StartsWith([CR, LF] + h + u, Pattern) by { assert ([CR, LF] + h + u)[2] != Pattern[2]; }
    UnmatchedLineKept(h, u);
  }

  /** The first |Pattern| bytes of a message survive the rewrite unchanged. */
  lemma {:induction false} RewriteKeepsHead(u: Bytes, m: nat)
    requires m <= |Pattern| && m <= |u|
    ensures m <= |Rewrite(u)| && Rewrite(u)[..m] == u[..m]
    decreases |u|
  {
    RewriteLength(u);
    if StartsWith(u, Pattern) {
      assert Rewrite(u)[..m] == Pattern[..m];
    } else if m > 0 {
      RewriteKeepsHead(u[1..], m - 1);
      assert Rewrite(u)[..m] == [u[0]] + Rewrite(u[1..])[..m - 1];
    }
  }

  /** Removing every inserted `[NOT FOUND] ` gives back the original bytes, in order. */
  lemma {:induction false} StripUndoesRewrite(s: Bytes)
    ensures Strip(Rewrite(s)) == s
    decreases |s|
  {
    var t := Rewrite(s);
    if StartsWith(s, Pattern) {
      var rest := Rewrite(s[|Pattern|..]);
      assert t == Replacement + rest;
      assert t[..|Replacement|] == Replacement;
      assert t[|Replacement|..] == rest;
      StripUndoesRewrite(s[|Pattern|..]);
      assert s == Pattern + s[|Pattern|..];
    } else if |s| > 0 {
      var rest := Rewrite(s[1..]);
      assert t == [s[0]] + rest;
      assert !StartsWith(t, Replacement) by {
        if |s| - 1 >= |Pattern| - 1 {
          RewriteKeepsHead(s[1..], |Pattern| - 1);
          assert t[..|Pattern|] == [s[0]] + rest[..|Pattern| - 1];
          assert s[..|Pattern|] == [s[0]] + s[1..][..|Pattern| - 1];
        } else {
          RewriteLength(s[1..]);
          OccurrencesBound(s[1..]);
        }
      }
      assert t[1..] == rest;
      StripUndoesRewrite(s[1..]);
    }
  }

  /** A message shorter than the pattern holds no match. */
  lemma {:induction false} OccurrencesBound(s: Bytes)
    requires |s| < |Pattern|
    ensures Occurrences(s) == 0
    decreases |s|
  {
    if |s| > 0 {
      OccurrencesBound(s[1..]);
    }
  }

  /** Distinct messages stay distinct after the rewrite. */
  lemma RewriteInjective(a: Bytes, b: Bytes)
    requires Rewrite(a) == Rewrite(b)
    ensures a == b
  {
    StripUndoesRewrite(a);
    StripUndoesRewrite(b);
  }
}
