/** The editor window's text logic (class `Editor`): find, find next,
    find-and-replace, and running a symbolic operation on the operand under
    the cursor. The Tk text widget is reduced to its content `buf`, the
    `insert` mark `cursor` and the `sel` tag; the status line to `status`.
    Dialogs are replaced by the answers they return. */
module EditorApp {
  import opened TkText
  import opened TextReplace
  import opened Symbolic

  /** Initial state of the "Power as ^" and "Evaluate" check buttons. */
  const InitPow: bool := true
  const InitEval: bool := false

  /** The status line: `INFO` shows a message on the normal background,
      `WARN` on the warning background. */
  datatype Status = Info(msg: string) | Warn(msg: string)

  /** What the find dialog hands back. */
  datatype FindAnswer = FindAnswer(pressOk: bool, text: string, nocase: bool)

  /** What the find-and-replace dialog hands back. */
  datatype ReplaceAnswer = ReplaceAnswer(pressOk: bool, find: string, replace: string, nocase: bool, all: bool)

  /** A selection is a non-empty range inside the buffer. */
  predicate SelectionIn(sel: Option<Span>, n: nat)
  {
    sel.Some? ==> sel.value.start < sel.value.end <= n
  }

  /** The operand of a symbolic operation: the selection if there is one,
      otherwise the whole line holding the cursor. */
  function OperandRange(buf: string, cursor: nat, sel: Option<Span>): (r: Span)
    requires cursor <= |buf| && SelectionIn(sel, |buf|)
    ensures r.start <= r.end <= |buf|
    ensures sel.Some? ==> r == sel.value
    ensures sel.None? ==> r.start <= cursor <= r.end
    ensures sel.None? ==> (r.start == 0 || buf[r.start - 1] == '\n') && (r.end == |buf| || buf[r.end] == '\n')
    ensures sel.None? ==> forall k :: r.start <= k < r.end ==> buf[k] != '\n'
  {
    match sel
    case Some(span) => span
    case None => Span(LineStart(buf, cursor), LineEnd(buf, cursor))
  }

  /** The buffer after the operand [rng.start, rng.end) has been replaced by
      the result text followed by one space. */
  function Spliced(buf: string, rng: Span, text: string): (r: string)
    requires rng.start <= rng.end <= |buf|
    ensures |r| == |buf| - (rng.end - rng.start) + |text| + 1
    ensures r[..rng.start] == buf[..rng.start]
    ensures r[rng.start..rng.start + |text| + 1] == text + " "
    ensures r[rng.start + |text| + 1..] == buf[rng.end..]
  {
    buf[..rng.start] + text + " " + buf[rng.end..]
  }

  class Editor {
    var buf: string
    var cursor: nat
    var sel: Option<Span>
    var status: Status
    const sym: Sym

    /** The cursor and the selection lie inside the buffer. */
    ghost predicate Valid()
      reads this
    {
      cursor <= |buf| && SelectionIn(sel, |buf|)
    }

    /** An empty editor whose bridge starts with "Evaluate" off and
        "Power as ^" on. */
    constructor ()
      ensures Valid() && fresh(sym) && sym.Valid()
      ensures buf == [] && cursor == 0 && sel == None && status == Info("")
      ensures sym.Config() == ParserConfig(InitEval, InitPow, TransformsFor(InitPow))
    {
      buf := [];
      cursor := 0;
      sel := None;
      status := Info("");
      var s := new Sym();
      s.SimpParse(InitEval);
      s.PowXor(InitPow);
      sym := s;
    }

    /** Clear the selection, search `pat` from one character past the
        cursor (wrapping around at the end of the buffer), and on a hit put
        the cursor on it and select it. When there is no hit, Tk's
        `mark_set('insert', '')` raises and the command ends with the
        selection cleared and the cursor where it was. */
    method SelectNext(pat: string, nocase: bool)
      requires Valid() && |pat| > 0
      modifies this
      ensures Valid() && buf == old(buf) && status == old(status)
      ensures match WrapSearch(buf, pat, StartAfter(old(cursor), |buf|), nocase)
              case Some(i) => cursor == i && sel == Some(Span(i, i + |pat|))
              case None => cursor == old(cursor) && sel == None
    {
      sel := None;
      var hit := WrapSearch(buf, pat, StartAfter(cursor, |buf|), nocase);
      if hit.Some? {
        cursor := hit.value;
        sel := Some(Span(hit.value, hit.value + |pat|));
      }
    }

    /** `searchFind`: find the dialog's text after the cursor. */
    method SearchFind(dlg: FindAnswer)
      requires Valid()
      modifies this
      ensures Valid() && buf == old(buf) && status == old(status)
      ensures !(dlg.pressOk && dlg.text != []) ==> cursor == old(cursor) && sel == old(sel)
      ensures dlg.pressOk && dlg.text != [] ==>
                match WrapSearch(buf, dlg.text, StartAfter(old(cursor), |buf|), dlg.nocase)
                case Some(i) => cursor == i && sel == Some(Span(i, i + |dlg.text|))
                case None => cursor == old(cursor) && sel == None
    {
      if dlg.pressOk && dlg.text != [] {
        SelectNext(dlg.text, dlg.nocase);
      }
    }

    /** `searchNext`: find the selected text again, case-sensitively, after
        the cursor. */
    method SearchNext()
      requires Valid()
      modifies this
      ensures Valid() && buf == old(buf) && status == old(status)
      ensures old(sel).None? ==> cursor == old(cursor) && sel == None
      ensures old(sel).Some? ==>
                var pat := buf[old(sel).value.start..old(sel).value.end];
                match WrapSearch(buf, pat, StartAfter(old(cursor), |buf|), false)
                case Some(i) => cursor == i && sel == Some(Span(i, i + |pat|))
                case None => cursor == old(cursor) && sel == None
    {
      if sel.Some? {
        var pat := buf[sel.value.start..sel.value.end];
        SelectNext(pat, false);
      }
    }

    /** `searchFindReplace`: replace the first occurrence after the cursor
        (wrapping around), or, in replace-all mode, every occurrence from the
        start of the buffer, never rescanning inserted text. The replace-all
        loop searches up to the end of the buffer only. With Tk's wrapping
        search it ends only once no occurrence is left anywhere: it never
        ends when the buffer and the replacement both hold the find text
        (`WrappedReplaceAllNeverEnds`), and it may end with another buffer
        than `ReplaceAll` (`WrappedReplaceAllRescans`). */
    method SearchFindReplace(dlg: ReplaceAnswer)
      requires Valid()
      modifies this
      ensures Valid() && status == old(status)
      ensures !(dlg.pressOk && dlg.find != [] && dlg.replace != []) ==>
                buf == old(buf) && cursor == old(cursor) && sel == old(sel)
      ensures dlg.pressOk && dlg.find != [] && dlg.replace != [] && dlg.all ==>
                sel == None
                && buf == ReplaceAll(old(buf), dlg.find, dlg.replace, dlg.nocase)
                && cursor == MarkAfterReplaceAll(old(buf), dlg.find, dlg.replace, dlg.nocase, old(cursor))
      ensures dlg.pressOk && dlg.find != [] && dlg.replace != [] && !dlg.all ==>
                sel == None
                && match WrapSearch(old(buf), dlg.find, StartAfter(old(cursor), |old(buf)|), dlg.nocase)
                   case None => buf == old(buf) && cursor == old(cursor)
                   case Some(i) => buf == old(buf)[..i] + dlg.replace + old(buf)[i + |dlg.find|..]
                                   && cursor == MarkAfterEdit(old(cursor), i, |dlg.find|, |dlg.replace|)
    {
      if dlg.pressOk && dlg.find != [] && dlg.replace != [] {
        sel := None;
        if dlg.all {
          ScanFromStart(buf, dlg.find, dlg.replace, dlg.nocase, cursor);
          ReplaceEvery(dlg.find, dlg.replace, dlg.nocase);
        } else {
          var hit := WrapSearch(buf, dlg.find, StartAfter(cursor, |buf|), dlg.nocase);
          if hit.Some? {
            Overwrite(hit.value, |dlg.find|, dlg.replace);
          }
        }
      }
    }

    /** The replace-all loop of `searchFindReplace`: scan from the start of
        the buffer, overwrite each occurrence and resume after the inserted
        text. */
    method ReplaceEvery(find: string, rep: string, nocase: bool)
      requires Valid() && sel == None && |find| > 0
      modifies this
      ensures Valid() && sel == None && status == old(status)
      ensures buf == ReplaceFrom(old(buf), find, rep, nocase, 0)
      ensures cursor == MarkFrom(old(buf), find, rep, nocase, 0, old(cursor))
    {
      ghost var orig, mark := buf, cursor;
      var from: nat := 0;
      while true
        invariant Valid() && sel == None && status == old(status)
        invariant from <= |buf|
        invariant ReplaceFrom(buf, find, rep, nocase, from) == ReplaceFrom(orig, find, rep, nocase, 0)
        invariant MarkFrom(buf, find, rep, nocase, from, cursor) == MarkFrom(orig, find, rep, nocase, 0, mark)
        decreases |buf| - from
      {
        ghost var before, cur := buf, cursor;
        var next := ReplaceNext(find, rep, nocase, from);
        StepKeepsScan(before, buf, find, rep, nocase, from, next, cur, cursor);
        if next.None? {
          break;
        }
        from := next.value;
      }
    }

    /** One turn of that loop: search from `from`; on a hit, overwrite it and
        answer where the search resumes. */
    method ReplaceNext(find: string, rep: string, nocase: bool, from: nat) returns (next: Option<nat>)
      requires Valid() && sel == None && |find| > 0 && from <= |buf|
      modifies this
      ensures Valid() && sel == None && status == old(status)
      ensures match Search(old(buf), find, from, nocase)
              case None => next == None && buf == old(buf) && cursor == old(cursor)
              case Some(i) => next == Some(i + |rep|)
                              && buf == old(buf)[..i] + rep + old(buf)[i + |find|..]
                              && cursor == MarkAfterEdit(old(cursor), i, |find|, |rep|)
    {
      var hit := Search(buf, find, from, nocase);
      if hit.None? {
        return None;
      }
      var i := hit.value;
      Overwrite(i, |find|, rep);
      next := Some(i + |rep|);
    }

    /** Delete `len` characters at `at`, then insert `text` there; the
        `insert` mark moves with the text. */
    method Overwrite(at: nat, len: nat, text: string)
      requires Valid() && at + len <= |buf| && sel == None
      modifies this
      ensures Valid() && sel == None && status == old(status)
      ensures buf == old(buf)[..at] + text + old(buf)[at + len..]
      ensures cursor == MarkAfterEdit(old(cursor), at, len, |text|)
    {
      buf := buf[..at] + buf[at + len..];
      cursor := MarkAfterEdit(cursor, at, len, 0);
      buf := buf[..at] + text + buf[at..];
      cursor := MarkAfterEdit(cursor, at, 0, |text|);
      MarkAfterDeleteInsert(old(cursor), at, len, |text|);
    }

    /** `_call`: run `fn` on the operand text; on success replace the
        operand by the result and one space and report "Done!", on failure
        leave the buffer alone and show the message as a warning. */
    method Call(fn: string -> Reply)
      requires Valid()
      modifies this
      ensures Valid()
      ensures var rng := OperandRange(old(buf), old(cursor), old(sel));
              var r := fn(old(buf)[rng.start..rng.end]);
              if r.ok then
                buf == Spliced(old(buf), rng, r.payload)
                && cursor == MarkAfterEdit(old(cursor), rng.start, rng.end - rng.start, |r.payload| + 1)
                && sel == None && status == Info("Done!")
              else
                buf == old(buf) && cursor == old(cursor) && sel == old(sel) && status == Warn(r.payload)
    {
      var rng := OperandRange(buf, cursor, sel);
      var text := buf[rng.start..rng.end];
      var r := fn(text);
      if r.ok {
        var len := rng.end - rng.start;
        buf := buf[..rng.start] + buf[rng.end..];
        cursor := MarkAfterEdit(cursor, rng.start, len, 0);
        sel := None;
        buf := buf[..rng.start] + r.payload + " " + buf[rng.start..];
        cursor := MarkAfterEdit(cursor, rng.start, 0, |r.payload| + 1);
        MarkAfterDeleteInsert(old(cursor), rng.start, len, |r.payload| + 1);
        status := Info("Done!");
      } else {
        status := Warn(r.payload);
      }
    }

    /** `symExpand`, `symFactor`, ...: `_call` with a sympy operation under
        the bridge's flags as they are now. */
    method SymApply(eng: Engine, op: Op)
      requires Valid()
      modifies this
      ensures Valid()
      ensures var rng := OperandRange(old(buf), old(cursor), old(sel));
              var r := Run(sym.Config(), eng, op, old(buf)[rng.start..rng.end]);
              if r.ok then buf == Spliced(old(buf), rng, r.payload) && status == Info("Done!")
              else buf == old(buf) && status == Warn(r.payload)
    {
      var cfg := sym.Config();
      Call(s => Run(cfg, eng, op, s));
    }
  }

  /** A turn of the replace-all loop leaves the outcome of the whole scan
      unchanged, and either ends the loop or moves its start forward. */
  lemma StepKeepsScan(before: string, after: string, find: string, rep: string, nocase: bool,
                      from: nat, next: Option<nat>, cur0: int, cur1: int)
    requires |find| > 0 && from <= |before|
    requires match Search(before, find, from, nocase)
             case None => next == None && after == before && cur1 == cur0
             case Some(i) => next == Some(i + |rep|)
                             && after == before[..i] + rep + before[i + |find|..]
                             && cur1 == MarkAfterEdit(cur0, i, |find|, |rep|)
    ensures next.None? ==> ReplaceFrom(after, find, rep, nocase, from) == after
                           && MarkFrom(after, find, rep, nocase, from, cur1) == cur1
    ensures next.Some? ==> from <= next.value <= |after| && |after| - next.value < |before| - from
                           && ReplaceFrom(after, find, rep, nocase, next.value) == ReplaceFrom(before, find, rep, nocase, from)
                           && MarkFrom(after, find, rep, nocase, next.value, cur1)
                              == MarkFrom(before, find, rep, nocase, from, cur0)
  {
    match Search(before, find, from, nocase)
    case None =>
      ScanDone(before, find, rep, nocase, from, cur0);
    case Some(i) =>
      ScanToHit(before, after, find, rep, nocase, from, i, cur0);
  }

  /** The replace-all loop as written, with Tk's default search, which wraps
      around: once the replacement contains the find text, every overwrite
      leaves an occurrence the next search finds, so the loop never reaches
      its `break`. */
  lemma WrappedReplaceAllNeverEnds(s: string, find: string, rep: string, nocase: bool, from: nat, k: nat)
    requires |find| > 0 && from <= |s| && MatchesAt(rep, find, k, nocase)
    requires WrapSearch(s, find, from, nocase).Some?
    ensures var i := WrapSearch(s, find, from, nocase).value;
            var t := s[..i] + rep + s[i + |find|..];
            i + |rep| <= |t| && WrapSearch(t, find, i + |rep|, nocase).Some?
  {
    var i := WrapSearch(s, find, from, nocase).value;
    var t := s[..i] + rep + s[i + |find|..];
    var hit, part := t[i + k..i + k + |find|], rep[k..k + |find|];
    forall q | 0 <= q < |find|
      ensures hit[q] == part[q]
    {
      assert t[i + k + q] == rep[k + q];
    }
    assert hit == part;
    assert MatchesAt(t, find, i + k, nocase);
  }

  /** When the loop as written does end, it may end with another buffer
      than `ReplaceAll`: replacing `ab` by `b` in `aab`, it overwrites the hit
      at 1, giving `ab`, wraps around, overwrites the new hit at 0, giving
      `b`, and only then finds nothing; `ReplaceAll` gives `ab`. */
  lemma WrappedReplaceAllRescans()
    ensures WrapSearch("aab", "ab", 0, false) == Some(1) && "aab"[..1] + "b" + "aab"[3..] == "ab"
    ensures WrapSearch("ab", "ab", 2, false) == Some(0) && "ab"[..0] + "b" + "ab"[2..] == "b"
    ensures WrapSearch("b", "ab", 1, false) == None
    ensures ReplaceAll("aab", "ab", "b", false) == "ab"
  {
    assert "aab"[0..2] == "aa" && "aab"[1..3] == "ab";
    assert !MatchesAt("aab", "ab", 0, false) && MatchesAt("aab", "ab", 1, false);
    assert "ab"[0..2] == "ab" && MatchesAt("ab", "ab", 0, false);
    assert "aab"[1..] == "ab" && "ab"[2..] == "";
  }
}
