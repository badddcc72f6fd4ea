/** Left-to-right, non-overlapping replacement of every occurrence of a
    pattern: the effect of the editor's replace-all loop on the buffer, and
    (case-sensitive) Python's `str.replace`, which renders `**` as `^`. */
module TextReplace {
  import opened TkText

  /** Scan `s` from the left; at each occurrence of `pat` emit `rep` and
      resume after the occurrence, otherwise keep the character. */
  function ReplaceAll(s: string, pat: string, rep: string, nocase: bool): string
    requires |pat| > 0
    decreases |s|
  {
    if |s| < |pat| then s
    else if MatchesAt(s, pat, 0, nocase) then rep + ReplaceAll(s[|pat|..], pat, rep, nocase)
    else [s[0]] + ReplaceAll(s[1..], pat, rep, nocase)
  }

  /** Where the `insert` mark, at offset `m` of `s` (possibly before it, when
      negative), ends up after every occurrence has been replaced, each
      replacement being a delete followed by an insert. */
  function MarkAfterReplaceAll(s: string, pat: string, rep: string, nocase: bool, m: int): int
    requires |pat| > 0
    decreases |s|
  {
    if |s| < |pat| then m
    else if MatchesAt(s, pat, 0, nocase) then
      |rep| + MarkAfterReplaceAll(s[|pat|..], pat, rep, nocase, MarkAfterEdit(m, 0, |pat|, |rep|) - |rep|)
    else 1 + MarkAfterReplaceAll(s[1..], pat, rep, nocase, m - 1)
  }

  /** A text without any occurrence is left as it is. */
  lemma {:induction false} ReplaceAllNoMatch(s: string, pat: string, rep: string, nocase: bool)
    requires |pat| > 0
    requires forall j :: 0 <= j < |s| ==> !MatchesAt(s, pat, j, nocase)
    ensures ReplaceAll(s, pat, rep, nocase) == s
    ensures MarkAfterReplaceAll(s, pat, rep, nocase, 0) == 0
    decreases |s|
  {
    if |s| >= |pat| {
      assert !MatchesAt(s, pat, 0, nocase);
      forall j | 0 <= j < |s| - 1 ensures !MatchesAt(s[1..], pat, j, nocase) {
        MatchesAtSuffix(s, pat, 1, j, nocase);
        assert !MatchesAt(s, pat, 1 + j, nocase);
      }
      ReplaceAllNoMatch(s[1..], pat, rep, nocase);
      MarkNoMatch(s[1..], pat, rep, nocase, -1);
      assert [s[0]] + s[1..] == s;
    }
  }

  /** With no occurrence, the mark does not move. */
  lemma {:induction false} MarkNoMatch(s: string, pat: string, rep: string, nocase: bool, m: int)
    requires |pat| > 0
    requires forall j :: 0 <= j < |s| ==> !MatchesAt(s, pat, j, nocase)
    ensures MarkAfterReplaceAll(s, pat, rep, nocase, m) == m
    decreases |s|
  {
    if |s| >= |pat| {
      assert !MatchesAt(s, pat, 0, nocase);
      forall j | 0 <= j < |s| - 1 ensures !MatchesAt(s[1..], pat, j, nocase) {
        MatchesAtSuffix(s, pat, 1, j, nocase);
        assert !MatchesAt(s, pat, 1 + j, nocase);
      }
      MarkNoMatch(s[1..], pat, rep, nocase, m - 1);
    }
  }

  /** One step of the scan past a position where `pat` does not occur. */
  lemma ReplaceAllSkip(s: string, pat: string, rep: string, nocase: bool, m: int)
    requires |pat| > 0 && |s| >= |pat| && !MatchesAt(s, pat, 0, nocase)
    ensures ReplaceAll(s, pat, rep, nocase) == [s[0]] + ReplaceAll(s[1..], pat, rep, nocase)
    ensures MarkAfterReplaceAll(s, pat, rep, nocase, m) == 1 + MarkAfterReplaceAll(s[1..], pat, rep, nocase, m - 1)
  {
  }

  /** Growth happens in one pass only: the inserted text is not rescanned. */
  lemma ReplaceAllOnePass()
    ensures ReplaceAll("aaa", "a", "aa", false) == "aaaaaa"
  {
    assert MatchesAt("a", "a", 0, false);
    assert MatchesAt("aa", "a", 0, false);
    assert MatchesAt("aaa", "a", 0, false);
    assert "aaa"[1..] == "aa" && "aa"[1..] == "a" && "a"[1..] == "";
  }

  // ---- The replace-all loop, on the whole buffer ----

  /** The buffer the replace-all loop ends with when it resumes scanning
      `s` at `from`: at each occurrence at or after `from` it overwrites the
      occurrence with `rep` and resumes right after the inserted text. */
  function ReplaceFrom(s: string, pat: string, rep: string, nocase: bool, from: nat): string
    requires |pat| > 0 && from <= |s|
    decreases |s| - from
  {
    if from + |pat| > |s| then s
    else if MatchesAt(s, pat, from, nocase) then
      ReplaceFrom(s[..from] + rep + s[from + |pat|..], pat, rep, nocase, from + |rep|)
    else ReplaceFrom(s, pat, rep, nocase, from + 1)
  }

  /** Where the same loop leaves the `insert` mark, starting at `m`: each
      overwrite moves it as Tk moves a mark across a delete and an insert. */
  function MarkFrom(s: string, pat: string, rep: string, nocase: bool, from: nat, m: int): int
    requires |pat| > 0 && from <= |s|
    decreases |s| - from
  {
    if from + |pat| > |s| then m
    else if MatchesAt(s, pat, from, nocase) then
      MarkFrom(s[..from] + rep + s[from + |pat|..], pat, rep, nocase, from + |rep|, MarkAfterEdit(m, from, |pat|, |rep|))
    else MarkFrom(s, pat, rep, nocase, from + 1, m)
  }

  /** Resuming at `from` is resuming right after the first occurrence `i`
      after it, once that occurrence has been overwritten, giving `t`. */
  lemma {:induction false} ScanToHit(s: string, t: string, pat: string, rep: string, nocase: bool, from: nat, i: nat, m: int)
    requires |pat| > 0 && from <= i
    requires MatchesAt(s, pat, i, nocase)
    requires forall j :: from <= j < i ==> !MatchesAt(s, pat, j, nocase)
    requires t == s[..i] + rep + s[i + |pat|..]
    ensures i + |rep| <= |t|
    ensures ReplaceFrom(s, pat, rep, nocase, from) == ReplaceFrom(t, pat, rep, nocase, i + |rep|)
    ensures MarkFrom(s, pat, rep, nocase, from, m) == MarkFrom(t, pat, rep, nocase, i + |rep|, MarkAfterEdit(m, i, |pat|, |rep|))
    decreases i - from
  {
    if from < i {
      assert !MatchesAt(s, pat, from, nocase);
      ScanToHit(s, t, pat, rep, nocase, from + 1, i, m);
    }
  }

  /** With no occurrence at or after `from`, the loop changes nothing more. */
  lemma {:induction false} ScanDone(s: string, pat: string, rep: string, nocase: bool, from: nat, m: int)
    requires |pat| > 0 && from <= |s|
    requires forall j :: from <= j ==> !MatchesAt(s, pat, j, nocase)
    ensures ReplaceFrom(s, pat, rep, nocase, from) == s
    ensures MarkFrom(s, pat, rep, nocase, from, m) == m
    decreases |s| - from
  {
    if from + |pat| <= |s| {
      assert !MatchesAt(s, pat, from, nocase);
      ScanDone(s, pat, rep, nocase, from + 1, m);
    }
  }

  /** The loop computes the specification: what precedes `from` is kept and
      everything after it is replaced as `ReplaceAll` does. */
  lemma {:induction false} ReplaceFromIsReplaceAll(s: string, pat: string, rep: string, nocase: bool, from: nat)
    requires |pat| > 0 && from <= |s|
    ensures ReplaceFrom(s, pat, rep, nocase, from) == s[..from] + ReplaceAll(s[from..], pat, rep, nocase)
    decreases |s| - from
  {
    if from + |pat| > |s| {
      assert s[..from] + s[from..] == s;
    } else if MatchesAt(s, pat, from, nocase) {
      var s' := s[..from] + rep + s[from + |pat|..];
      ReplaceFromIsReplaceAll(s', pat, rep, nocase, from + |rep|);
      SpliceParts(s, from, |pat|, rep);
      ReplaceAllHitAt(s, pat, rep, nocase, from);
      AppendAssoc(s[..from], rep, ReplaceAll(s[from + |pat|..], pat, rep, nocase));
    } else {
      ReplaceFromIsReplaceAll(s, pat, rep, nocase, from + 1);
      ReplaceAllSkipAt(s, pat, rep, nocase, from);
    }
  }

  lemma AppendAssoc(a: string, b: string, c: string)
    ensures a + (b + c) == (a + b) + c
  {
  }

  /** The text overwritten at `at`, split around the inserted part. */
  lemma SpliceParts(s: string, at: nat, len: nat, text: string)
    requires at + len <= |s|
    ensures (s[..at] + text + s[at + len..])[..at + |text|] == s[..at] + text
    ensures (s[..at] + text + s[at + len..])[at + |text|..] == s[at + len..]
  {
  }

  /** `ReplaceAll` of the rest, at an occurrence: `rep`, then the text after it. */
  lemma ReplaceAllHitAt(s: string, pat: string, rep: string, nocase: bool, from: nat)
    requires |pat| > 0 && MatchesAt(s, pat, from, nocase)
    ensures ReplaceAll(s[from..], pat, rep, nocase) == rep + ReplaceAll(s[from + |pat|..], pat, rep, nocase)
  {
    MatchesAtSuffix(s, pat, from, 0, nocase);
    assert s[from..][|pat|..] == s[from + |pat|..];
  }

  /** `ReplaceAll` of the rest, where no occurrence starts: the character,
      then the rest after it. */
  lemma ReplaceAllSkipAt(s: string, pat: string, rep: string, nocase: bool, from: nat)
    requires |pat| > 0 && from + |pat| <= |s| && !MatchesAt(s, pat, from, nocase)
    ensures s[..from] + ReplaceAll(s[from..], pat, rep, nocase)
         == s[..from + 1] + ReplaceAll(s[from + 1..], pat, rep, nocase)
  {
    var t := s[from..];
    MatchesAtSuffix(s, pat, from, 0, nocase);
    ReplaceAllSkip(t, pat, rep, nocase, 0);
    assert s[..from + 1] == s[..from] + [t[0]];
    assert s[from + 1..] == t[1..];
    AppendAssoc(s[..from], [t[0]], ReplaceAll(t[1..], pat, rep, nocase));
  }

  /** The mark the loop computes is the one `MarkAfterReplaceAll` predicts,
      shifted by the part already scanned. */
  lemma {:induction false} MarkFromIsMarkAfterReplaceAll(s: string, pat: string, rep: string, nocase: bool, from: nat, m: int)
    requires |pat| > 0 && from <= |s|
    ensures MarkFrom(s, pat, rep, nocase, from, m) == from + MarkAfterReplaceAll(s[from..], pat, rep, nocase, m - from)
    decreases |s| - from
  {
    if from + |pat| > |s| {
    } else if MatchesAt(s, pat, from, nocase) {
      var s' := s[..from] + rep + s[from + |pat|..];
      var m' := MarkAfterEdit(m, from, |pat|, |rep|);
      MarkFromIsMarkAfterReplaceAll(s', pat, rep, nocase, from + |rep|, m');
      MarkFromHit(s, s', pat, rep, nocase, from, m, m');
    } else {
      MarkFromIsMarkAfterReplaceAll(s, pat, rep, nocase, from + 1, m);
      MarkSkipAt(s, pat, rep, nocase, from, m);
    }
  }

  /** One step of `MarkFromIsMarkAfterReplaceAll` at an occurrence, given the
      statement for the text after the overwrite. */
  lemma MarkFromHit(s: string, s': string, pat: string, rep: string, nocase: bool, from: nat, m: int, m': int)
    requires |pat| > 0 && MatchesAt(s, pat, from, nocase)
    requires s' == s[..from] + rep + s[from + |pat|..] && m' == MarkAfterEdit(m, from, |pat|, |rep|)
    requires from + |rep| <= |s'|
    requires MarkFrom(s', pat, rep, nocase, from + |rep|, m')
             == from + |rep| + MarkAfterReplaceAll(s'[from + |rep|..], pat, rep, nocase, m' - (from + |rep|))
    ensures MarkFrom(s, pat, rep, nocase, from, m) == from + MarkAfterReplaceAll(s[from..], pat, rep, nocase, m - from)
  {
    SpliceParts(s, from, |pat|, rep);
    MarkHitAt(s, pat, rep, nocase, from, m);
  }

  /** The mark's journey through the rest, at an occurrence. */
  lemma MarkHitAt(s: string, pat: string, rep: string, nocase: bool, from: nat, m: int)
    requires |pat| > 0 && MatchesAt(s, pat, from, nocase)
    ensures MarkAfterReplaceAll(s[from..], pat, rep, nocase, m - from)
         == |rep| + MarkAfterReplaceAll(s[from + |pat|..], pat, rep, nocase,
                                        MarkAfterEdit(m, from, |pat|, |rep|) - from - |rep|)
  {
    MatchesAtSuffix(s, pat, from, 0, nocase);
    assert s[from..][|pat|..] == s[from + |pat|..];
    assert MarkAfterEdit(m, from, |pat|, |rep|) - from == MarkAfterEdit(m - from, 0, |pat|, |rep|);
  }

  /** The mark's journey through the rest, where no occurrence starts. */
  lemma MarkSkipAt(s: string, pat: string, rep: string, nocase: bool, from: nat, m: int)
    requires |pat| > 0 && from + |pat| <= |s| && !MatchesAt(s, pat, from, nocase)
    ensures MarkAfterReplaceAll(s[from..], pat, rep, nocase, m - from)
         == 1 + MarkAfterReplaceAll(s[from + 1..], pat, rep, nocase, m - from - 1)
  {
    MatchesAtSuffix(s, pat, from, 0, nocase);
    ReplaceAllSkip(s[from..], pat, rep, nocase, m - from);
    assert s[from..][1..] == s[from + 1..];
  }

  /** Run over the whole buffer, the loop leaves exactly `ReplaceAll`'s
      text and `MarkAfterReplaceAll`'s mark. */
  lemma ScanFromStart(s: string, pat: string, rep: string, nocase: bool, m: int)
    requires |pat| > 0
    ensures ReplaceFrom(s, pat, rep, nocase, 0) == ReplaceAll(s, pat, rep, nocase)
    ensures MarkFrom(s, pat, rep, nocase, 0, m) == MarkAfterReplaceAll(s, pat, rep, nocase, m)
  {
    ReplaceFromIsReplaceAll(s, pat, rep, nocase, 0);
    MarkFromIsMarkAfterReplaceAll(s, pat, rep, nocase, 0, m);
    assert s[0..] == s;
  }

  // ---- `**` rendered as `^` ----

  /** No `**` token left in `s`. */
  predicate NoPowerToken(s: string)
  {
    forall j :: 0 <= j < |s| ==> !MatchesAt(s, "**", j, false)
  }

  /** Python's `s.replace('**', '^')`: no `**` is left, the text does not
      grow, and every character other than `*` and `^` is kept in order. */
  function CaretPower(s: string): (r: string)
    ensures NoPowerToken(r) && |r| <= |s|
    ensures Unstarred(r) == Unstarred(s)
  {
    CaretPowerResult(s);
    CaretPowerKeepsOthers(s);
    ReplaceAll(s, "**", "^", false)
  }

  lemma MatchesPowerAt(s: string, j: int)
    ensures MatchesAt(s, "**", j, false) <==> 0 <= j && j + 1 < |s| && s[j] == '*' && s[j + 1] == '*'
  {
    if 0 <= j && j + 1 < |s| {
      assert s[j..j + 2] == [s[j], s[j + 1]];
    }
  }

  lemma MatchesCaretAt(s: string, j: int)
    ensures MatchesAt(s, "^", j, false) <==> 0 <= j < |s| && s[j] == '^'
  {
    if 0 <= j < |s| {
      assert s[j..j + 1] == [s[j]];
    }
  }

  /** The result holds no `**`; it starts with `^` or with the first
      character of the input, and it is never longer than the input. */
  lemma {:induction false} CaretPowerResult(s: string)
    ensures NoPowerToken(ReplaceAll(s, "**", "^", false))
    ensures |ReplaceAll(s, "**", "^", false)| <= |s|
    ensures |s| > 0 ==> |ReplaceAll(s, "**", "^", false)| > 0 && (ReplaceAll(s, "**", "^", false)[0] == '^' || ReplaceAll(s, "**", "^", false)[0] == s[0])
    decreases |s|
  {
    var r := ReplaceAll(s, "**", "^", false);
    if |s| < 2 {
      forall j | 0 <= j < |r| ensures !MatchesAt(r, "**", j, false) { MatchesPowerAt(r, j); }
    } else if MatchesAt(s, "**", 0, false) {
      var t := ReplaceAll(s[2..], "**", "^", false);
      CaretPowerResult(s[2..]);
      assert r == "^" + t;
      forall j | 0 <= j < |r| ensures !MatchesAt(r, "**", j, false) {
        MatchesPowerAt(r, j);
        if 1 <= j {
          MatchesPowerAt(t, j - 1);
        }
      }
    } else {
      var t := ReplaceAll(s[1..], "**", "^", false);
      CaretPowerResult(s[1..]);
      assert r == [s[0]] + t;
      MatchesPowerAt(s, 0);
      forall j | 0 <= j < |r| ensures !MatchesAt(r, "**", j, false) {
        MatchesPowerAt(r, j);
        if 1 <= j {
          MatchesPowerAt(t, j - 1);
        }
      }
    }
  }

  /** Turning every `^` back into `**` restores a text that had no `^`:
      the replacement is left to right and loses nothing. */
  lemma {:induction false} CaretPowerRoundTrip(s: string)
    requires '^' !in s
    ensures ReplaceAll(CaretPower(s), "^", "**", false) == s
    decreases |s|
  {
    if |s| < 2 {
      if |s| == 1 {
        MatchesCaretAt(s, 0);
        assert s[1..] == "";
      }
    } else if MatchesAt(s, "**", 0, false) {
      var t := CaretPower(s[2..]);
      CaretPowerRoundTrip(s[2..]);
      assert CaretPower(s) == "^" + t;
      MatchesCaretAt("^" + t, 0);
      assert ("^" + t)[1..] == t;
      MatchesPowerAt(s, 0);
      assert s == "**" + s[2..];
    } else {
      var t := CaretPower(s[1..]);
      CaretPowerRoundTrip(s[1..]);
      assert CaretPower(s) == [s[0]] + t;
      assert s[0] in s;
      MatchesCaretAt([s[0]] + t, 0);
      assert ([s[0]] + t)[1..] == t;
      assert s == [s[0]] + s[1..];
    }
  }

  /** `s` without its `*` and `^` characters, in order. */
  function Unstarred(s: string): (r: string)
    ensures forall j :: 0 <= j < |r| ==> r[j] != '*' && r[j] != '^'
    decreases |s|
  {
    if s == [] then []
    else if s[0] == '*' || s[0] == '^' then Unstarred(s[1..])
    else [s[0]] + Unstarred(s[1..])
  }

  /** Every character other than `*` and `^` survives the rendering, in
      order: only `**` pairs are touched, and each becomes a `^`. */
  lemma {:induction false} CaretPowerKeepsOthers(s: string)
    ensures Unstarred(ReplaceAll(s, "**", "^", false)) == Unstarred(s)
    decreases |s|
  {
    if |s| < 2 {
    } else if MatchesAt(s, "**", 0, false) {
      var t := ReplaceAll(s[2..], "**", "^", false);
      CaretPowerKeepsOthers(s[2..]);
      assert ReplaceAll(s, "**", "^", false) == "^" + t;
      assert ("^" + t)[1..] == t;
      MatchesPowerAt(s, 0);
      assert s[1..][1..] == s[2..];
    } else {
      var t := ReplaceAll(s[1..], "**", "^", false);
      CaretPowerKeepsOthers(s[1..]);
      assert ReplaceAll(s, "**", "^", false) == [s[0]] + t;
      assert ([s[0]] + t)[1..] == t;
    }
  }

  /** Rendering an already rendered text changes nothing. */
  lemma CaretPowerIdempotent(s: string)
    ensures CaretPower(CaretPower(s)) == CaretPower(s)
  {
    CaretPowerResult(s);
    ReplaceAllNoMatch(CaretPower(s), "**", "^", false);
  }
}
