/** The parts of Tk's text widget that the editor relies on, over a buffer
    modelled as a sequence of characters addressed by absolute offsets
    (instead of Tk's `line.column` indices): forward search, the
    `insert + 1 chars` start index, the `linestart`/`lineend` anchors and the
    way the `insert` mark moves when text is deleted and inserted. */
module TkText {

  datatype Option<T> = None | Some(value: T)

  /** A half-open range [start, end) of the buffer: a selection or a hit. */
  datatype Span = Span(start: nat, end: nat)

  /** ASCII-only lower-casing, used by case-insensitive (`nocase`) search. */
  function Fold(c: char): (r: char)
    ensures !('A' <= r <= 'Z')
    ensures r != c ==> 'A' <= c <= 'Z' && r as int == c as int + 32
    ensures 'A' <= c <= 'Z' ==> r != c
  {
    if 'A' <= c <= 'Z' then (c as int + 32) as char else c
  }

  /** The text as `nocase` search compares it. */
  function Folded(t: string, nocase: bool): (r: string)
    ensures |r| == |t|
    ensures forall k :: 0 <= k < |t| ==> r[k] == if nocase then Fold(t[k]) else t[k]
  {
    if nocase then seq(|t|, k requires 0 <= k < |t| => Fold(t[k])) else t
  }

  /** `pat` occurs in `s` at offset `j`: the slice there equals `pat`, up to
      case when `nocase` is set. */
  predicate MatchesAt(s: string, pat: string, j: int, nocase: bool)
  {
    0 <= j && j + |pat| <= |s| && Folded(s[j..j + |pat|], nocase) == Folded(pat, nocase)
  }

  /** A match, character by character: each character of the slice equals
      the pattern's, after ASCII lower-casing of both when `nocase` is set. */
  lemma MatchesAtChars(s: string, pat: string, j: int, nocase: bool)
    requires 0 <= j && j + |pat| <= |s|
    ensures MatchesAt(s, pat, j, nocase) <==>
              forall k :: 0 <= k < |pat| ==>
                if nocase then Fold(s[j + k]) == Fold(pat[k]) else s[j + k] == pat[k]
  {
    var a, b := Folded(s[j..j + |pat|], nocase), Folded(pat, nocase);
    if forall k :: 0 <= k < |pat| ==> if nocase then Fold(s[j + k]) == Fold(pat[k]) else s[j + k] == pat[k] {
      assert forall k :: 0 <= k < |pat| ==> a[k] == b[k];
    }
  }

  /** Matching in a suffix of the buffer is matching in the buffer, shifted. */
  lemma MatchesAtSuffix(s: string, pat: string, d: nat, j: int, nocase: bool)
    requires d <= |s| && 0 <= j
    ensures MatchesAt(s[d..], pat, j, nocase) <==> MatchesAt(s, pat, d + j, nocase)
  {
    if j + |pat| <= |s| - d {
      assert s[d..][j..j + |pat|] == s[d + j..d + j + |pat|];
    }
  }

  /** `text.search(pat, from)`: the first offset at or after `from` where
      `pat` occurs. The search stops at the end of the buffer. */
  function Search(s: string, pat: string, from: nat, nocase: bool): (r: Option<nat>)
    requires from <= |s|
    ensures r.Some? ==> from <= r.value && MatchesAt(s, pat, r.value, nocase)
    ensures r.Some? ==> forall j :: from <= j < r.value ==> !MatchesAt(s, pat, j, nocase)
    ensures r.None? ==> forall j :: from <= j ==> !MatchesAt(s, pat, j, nocase)
    decreases |s| - from
  {
    if from + |pat| > |s| then None
    else if MatchesAt(s, pat, from, nocase) then Some(from)
    else Search(s, pat, from + 1, nocase)
  }

  /** `text.search(pat, from)` with no stop index, as Tk does it by default:
      forward from `from` to the end of the buffer, then wrapping around to
      the first occurrence in the whole buffer. */
  function WrapSearch(s: string, pat: string, from: nat, nocase: bool): (r: Option<nat>)
    requires from <= |s|
    ensures r.Some? ==> MatchesAt(s, pat, r.value, nocase)
    ensures r.Some? && from <= r.value ==> forall j :: from <= j < r.value ==> !MatchesAt(s, pat, j, nocase)
    ensures r.Some? && r.value < from ==>
              forall j :: 0 <= j < r.value || from <= j ==> !MatchesAt(s, pat, j, nocase)
    ensures r.None? <==> forall j :: 0 <= j ==> !MatchesAt(s, pat, j, nocase)
  {
    match Search(s, pat, from, nocase)
    case Some(i) => Some(i)
    case None => Search(s, pat, 0, nocase)
  }

  /** The index `insert + 1 chars`: one past the mark, clamped to the end. */
  function StartAfter(mark: nat, n: nat): (r: nat)
    requires mark <= n
    ensures r <= n && (mark < r <==> mark < n)
    ensures mark < n ==> r == mark + 1
  {
    if mark < n then mark + 1 else n
  }

  /** The index `insert linestart`: the start of the line holding offset `m`. */
  function LineStart(s: string, m: nat): (r: nat)
    requires m <= |s|
    ensures r <= m
    ensures r == 0 || s[r - 1] == '\n'
    ensures forall k :: r <= k < m ==> s[k] != '\n'
    decreases m
  {
    if m == 0 || s[m - 1] == '\n' then m else LineStart(s, m - 1)
  }

  /** The index `insert lineend`: the end of the line holding offset `m`,
      before its newline. */
  function LineEnd(s: string, m: nat): (r: nat)
    requires m <= |s|
    ensures m <= r <= |s|
    ensures r == |s| || s[r] == '\n'
    ensures forall k :: m <= k < r ==> s[k] != '\n'
    decreases |s| - m
  {
    if m == |s| || s[m] == '\n' then m else LineEnd(s, m + 1)
  }

  /** Where a right-gravity mark (Tk's `insert` mark) at `m` ends up when
      the characters [at, at + del) are deleted and then `ins` characters
      are inserted at `at`. Offsets may be negative when they are taken
      relative to a later point of the buffer. */
  function MarkAfterEdit(m: int, at: int, del: nat, ins: nat): int
  {
    if m < at then m
    else if m < at + del then at + ins
    else m - del + ins
  }

  /** Right gravity, on the text: when [at, at + del) of `s` is replaced by
      `text`, the mark keeps the text to its left when it was before the
      edit, lands right after the inserted text when it was inside the
      deleted range, and keeps the text to its right when it was after it. */
  lemma MarkKeepsText(s: string, at: nat, del: nat, text: string, m: nat)
    requires at + del <= |s| && m <= |s|
    ensures var t, r := s[..at] + text + s[at + del..], MarkAfterEdit(m, at, del, |text|);
            0 <= r <= |t|
            && (m < at ==> t[..r] == s[..m])
            && (at <= m < at + del ==> t[..r] == s[..at] + text && t[r..] == s[at + del..])
            && (at + del <= m ==> t[r..] == s[m..])
  {
  }

  /** Deleting and then inserting moves the mark as one combined edit does. */
  lemma MarkAfterDeleteInsert(m: int, at: int, del: nat, ins: nat)
    ensures MarkAfterEdit(MarkAfterEdit(m, at, del, 0), at, 0, ins) == MarkAfterEdit(m, at, del, ins)
  {
  }
}
