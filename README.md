# A verified model of the text and symbolic core of a Tk/sympy editor

The editor is a small Tk window. It holds a text buffer, and its menus run
sympy operations on the expression under the cursor. This project models the
two pieces of logic behind that window and proves what they promise.

- **The buffer commands of `Editor`** (`editor/editor.py`, module
  `EditorApp` in `editor.dfy`):
  - find and find next;
  - find-and-replace, both for one occurrence and for all of them;
  - `_call`, which replaces the operand under the cursor (the selection, or
    else the cursor's line) with the result of an operation plus one space,
    or shows a warning when the operation fails.

  The Tk text widget is reduced to three things: the content `buf` as a
  sequence of characters addressed by absolute offsets, the `insert` mark
  `cursor`, and the `sel` tag. Tk's own behaviour lives in module `TkText`
  (`tk_text.dfy`): search, the `insert + 1 chars` index, the
  `linestart`/`lineend` anchors, and how a right-gravity mark moves across a
  delete and an insert.
- **The replace-all specification** (module `TextReplace`,
  `text_replace.dfy`). `ReplaceAll` is left-to-right, non-overlapping
  replacement. The model's replace-all loop, whose search stops at the end
  of the buffer, is proved to compute exactly `ReplaceAll`, and to leave the
  cursor where `MarkAfterReplaceAll` predicts. The same function, case-sensitive, is
  Python's `str.replace`, which the symbolic bridge uses to print `**` as
  `^`.
- **The symbolic bridge `Sym`** (`editor/symbolic.py`, module `Symbolic`,
  `symbolic.dfy`):
  - the class holding the "Evaluate" and "Power as ^" flags and the parser
    transformation list, with the invariant that the list holds `convert_xor`
    exactly when the caret flag is set;
  - the pure functions that parse, transform and render. sympy is an
    `Engine` value of uninterpreted functions over an opaque `Expr`, and a
    parse failure is a `ParseError` value instead of an exception.

Tk's `text.search` is called without a stop index, so it wraps around to the
start of the buffer. Find, find next and single replace are modelled that
way (`WrapSearch`). The replace-all loop is the one place where the model
does not wrap (`Search`). The loop as written, with the wrapping search, ends
only once no occurrence is left anywhere in the buffer. So it gives another
buffer than `ReplaceAll` whenever `ReplaceAll`'s result still holds the find
text, and it never ends when the buffer holds the find text and the
replacement holds it too. See Findings.

## Model

| member | source | states |
|---|---|---|
| TkText.Fold | editor/editor.py:202 | `nocase` lower-cases ASCII letters only: the result is never an upper-case ASCII letter, and only upper-case ASCII letters change, each by 32 |
| TkText.MatchesAtChars | editor/editor.py:202 | an occurrence at an offset is a character-by-character equality with the pattern, after folding both sides when `nocase` is set |
| TkText.Search | editor/editor.py:229 | a hit is the first occurrence at or after the start index; no hit means no occurrence at or after it (the search stops at the buffer end) |
| TkText.WrapSearch | editor/editor.py:202 | Tk's default search: the first occurrence at or after the start index, otherwise the first occurrence in the whole buffer; no hit exactly when the pattern occurs nowhere |
| TkText.StartAfter | editor/editor.py:202 | `insert + 1 chars` is one past the cursor, clamped to the buffer end: strictly after the cursor exactly when the cursor is not at the end |
| TkText.LineStart | editor/editor.py:259 | `insert linestart` is at or before the cursor, at the buffer start or just after a newline, with no newline in between |
| TkText.LineEnd | editor/editor.py:259 | `insert lineend` is at or after the cursor, at the buffer end or on a newline, with no newline in between |
| TkText.MarkKeepsText | editor/editor.py:233-234 | right gravity on the text: a mark before the edit keeps the text on its left; one inside the deleted range, or at its start, lands right after the inserted text; one after the range keeps the text on its right |
| TkText.MarkAfterDeleteInsert | editor/editor.py:233-234 | moving the `insert` mark across the delete and then the insert is the same as moving it across one combined edit |
| TextReplace.ReplaceAllNoMatch | editor/editor.py:227-237 | a buffer with no occurrence is left unchanged, and so is a mark at its start |
| TextReplace.MarkNoMatch | editor/editor.py:227-237 | with no occurrence, replace-all does not move the cursor |
| TextReplace.ReplaceAllOnePass | editor/editor.py:236-237 | an example of the one-pass scan: replacing `a` by `aa` in `aaa` gives `aaaaaa` |
| TextReplace.ScanToHit | editor/editor.py:229-237 | resuming the loop at a start index means resuming after the first occurrence from there, once it is overwritten, with the mark moved across that edit |
| TextReplace.ScanDone | editor/editor.py:229-230 | when the search finds nothing, the loop leaves both buffer and cursor as they are |
| TextReplace.ReplaceFromIsReplaceAll | editor/editor.py:226-237 | the loop resumed at any index keeps the text before that index and replaces the rest as `ReplaceAll` does |
| TextReplace.MarkFromIsMarkAfterReplaceAll | editor/editor.py:226-237 | the cursor the loop computes from any index is the one `MarkAfterReplaceAll` predicts for the rest, shifted by that index |
| TextReplace.ScanFromStart | editor/editor.py:226-237 | started at `1.0`, the loop yields exactly `ReplaceAll`'s text and `MarkAfterReplaceAll`'s cursor |
| TextReplace.CaretPower | editor/symbolic.py:38 | `s.replace('**','^')` leaves no `**`, never grows the text, and keeps every character other than `*` and `^` in order |
| TextReplace.CaretPowerResult | editor/symbolic.py:37-38 | `s.replace('**','^')` leaves no `**`, is never longer than `s`, and is empty only when `s` is |
| TextReplace.CaretPowerKeepsOthers | editor/symbolic.py:38 | every character other than `*` and `^` is kept, in order |
| TextReplace.CaretPowerRoundTrip | editor/symbolic.py:38 | when `s` has no `^`, replacing `^` by `**` in the result gives back `s` |
| TextReplace.CaretPowerIdempotent | editor/symbolic.py:38 | applying the replacement twice gives the same text as applying it once |
| Symbolic.TransformsFor | editor/symbolic.py:21-24 | the list holds `convert_xor` exactly when the caret flag is set, and it always starts with sympy's standard transformations |
| Symbolic.Sym.constructor | editor/symbolic.py:9-12 | a new bridge has the caret flag on, evaluation off, and `convert_xor` in its list |
| Symbolic.Sym.SimpParse | editor/symbolic.py:16-17 | only the evaluate flag changes; the caret flag, the list and the invariant are untouched |
| Symbolic.Sym.PowXor | editor/symbolic.py:19-24 | the caret flag becomes `use`, the list holds `convert_xor` exactly when `use` is set, and the invariant holds afterwards |
| Symbolic.Sym.Config | editor/symbolic.py:30 | under the bridge's invariant, the transformation list handed to the parser is the one the caret flag selects, so it holds `convert_xor` exactly when the caret flag is set |
| Symbolic.Parse | editor/symbolic.py:28-33 | under that invariant, the parser gets the evaluate flag and the standard transformations, plus `convert_xor` exactly when the caret flag is set; a failure is a `ParseError` value |
| Symbolic.ParseDeterminedByFlags | editor/symbolic.py:28-33 | two configurations keeping the invariant with the same two flags parse every text alike |
| Symbolic.Render | editor/symbolic.py:35-39 | with the caret flag off, this is sympy's text unchanged; with it on, the text has no `**` and keeps every other character in order |
| Symbolic.RenderRoundTrip | editor/symbolic.py:35-39 | with the caret flag on, rendering loses nothing about a text that had no `^` |
| Symbolic.Eval | editor/symbolic.py:41-46 | ok exactly when the parse succeeds; on failure the answer is the parser's message; on success it is the rendering of `fn` applied to the parsed expression |
| Symbolic.EvalArg | editor/symbolic.py:48-53 | as `Eval`, with `fn(expr, arg)` |
| Symbolic.Subs | editor/symbolic.py:55-60 | as `Eval`, with `expr.subs(a, b)` |
| Symbolic.Evalf | editor/symbolic.py:62-67 | as `Eval`, with `expr.evalf()` |
| Symbolic.Run | editor/symbolic.py:71-113 | each menu operation is `_eval` with its sympy function: fails exactly when the parse fails, and otherwise renders the transformed expression |
| Symbolic.Collect | editor/symbolic.py:80-81 | `collect` is `_eval_arg` with `sympy.collect` and its argument: ok exactly when the parse succeeds, the parser's message on failure, the rendering of the collected expression on success |
| Symbolic.ParseFailureShortCircuits | editor/symbolic.py:42-44 | on a parse failure the transformation is never applied: every operation gives the same `(False, err)` answer |
| EditorApp.OperandRange | editor/editor.py:256-260 | the operand is the selection if there is one, otherwise the whole line holding the cursor |
| EditorApp.Spliced | editor/editor.py:264-265 | the text before the operand is kept, the operand becomes the result plus one space, and the text after it is kept |
| EditorApp.Editor.constructor | editor/editor.py:20-22 | the editor's bridge starts with evaluation off and the caret flag on, its list matching the flag |
| EditorApp.Editor.SelectNext | editor/editor.py:201-205 | the selection is cleared; on a hit from one past the cursor the cursor moves to it and exactly `len(pattern)` characters are selected; otherwise the cursor stays; the buffer never changes |
| EditorApp.Editor.SearchFind | editor/editor.py:194-206 | nothing happens unless OK was pressed with a non-empty text; otherwise the dialog's text is selected at its next occurrence, with the dialog's case setting |
| EditorApp.Editor.SearchNext | editor/editor.py:208-218 | with no selection nothing happens; otherwise the selected text is searched again from one past the cursor, case-sensitively |
| EditorApp.Editor.SearchFindReplace | editor/editor.py:220-239 | nothing changes unless OK was pressed with non-empty find and replace texts; replace-all yields `ReplaceAll`'s buffer and `MarkAfterReplaceAll`'s cursor; otherwise only the next occurrence from one past the cursor is overwritten |
| EditorApp.Editor.ReplaceEvery | editor/editor.py:226-237 | the loop ends, and its buffer and cursor are those of the scan from the buffer start |
| EditorApp.Editor.ReplaceNext | editor/editor.py:228-237 | one turn: no hit leaves everything unchanged; a hit is overwritten and the next search starts right after the inserted text |
| EditorApp.Editor.Overwrite | editor/editor.py:231-234 | the text before the hit is kept, the replacement follows, then the text that followed the hit; the cursor moves as a right-gravity mark |
| EditorApp.Editor.Call | editor/editor.py:255-268 | on success, the operand is replaced by the result plus a space, the selection is gone and the status is info "Done!"; on failure the buffer, cursor and selection are unchanged and the status is a warning with the message |
| EditorApp.Editor.SymApply | editor/editor.py:270-292 | a menu command (the menus offer eight of `Sym`'s one-argument operations; `Op` also covers `cancel`, `apart` and `expand_log`, which no command calls) is `_call` on the bridge's operation under the flags as they are at that moment |
| EditorApp.StepKeepsScan | editor/editor.py:227-237 | each turn of the replace-all loop keeps the outcome of the whole scan, and either ends the loop or strictly shrinks what is left to scan |
| EditorApp.WrappedReplaceAllRescans | editor/editor.py:227-239 | with Tk's wrapping search, replacing `ab` by `b` in `aab` rescans inserted text and ends with `b`, where `ReplaceAll` gives `ab` |
| EditorApp.WrappedReplaceAllNeverEnds | editor/editor.py:227-239 | with Tk's wrapping search, when the replacement contains the find text, every overwrite is followed by another hit |

## Findings

| source | as written | input that shows it | evidently intended | confidence | as-written member | corrected member |
|---|---|---|---|---|---|---|
| editor/editor.py:229 | the replace-all loop searches with no stop index, so Tk wraps around to the start of the buffer and the loop only exits when the pattern occurs nowhere | replace all with find `a` and replacement `aa` in a buffer holding `a`: after every overwrite the search finds an `a` again, so the loop never ends; replace all with find `ab` and replacement `b` in `aab`: the loop wraps around, rescans the inserted `b` and ends with `b` instead of `ab` | the loop resumes after the inserted text and stops at the buffer end, so each original occurrence is replaced once | medium (not executed; follows Tk's documented search semantics) | EditorApp.WrappedReplaceAllNeverEnds, EditorApp.WrappedReplaceAllRescans | EditorApp.Editor.ReplaceEvery |

## Left out

- GUI construction, menus, key bindings and status colours (editor/editor.py:17-137, 241-253). The status line is kept only as `Info` or `Warn` and its message.
- File I/O and the MD5 change tracking (editor/editor.py:139-192): filesystem access and hashing.
- `editor/dialogs.py` is not part of this model. The dialogs only copy entry values into fields, so their answers are parameters (`FindAnswer`, `ReplaceAnswer`).
- Pre-filling the find dialog with the current selection (editor/editor.py:196-199) is left out: it only affects what the dialog shows, and the dialog's answer is a parameter.
- Tk's `line.column` indices and the newline Tk keeps at the end of every text. The buffer is addressed by absolute offsets, and it ends where its last character does.
- Case-insensitive search folds ASCII letters only. Unicode case folding is not modelled.
- The sympy engine: `parse_expr`, `str`, `expand`, `factor`, `collect`, `subs`, `evalf` and the rest are uninterpreted functions of an `Engine`. An exception raised by a transformation rather than by the parser is not caught in the source, and it is not modelled.
- `logCombine` (editor/symbolic.py:115-116) names the undefined `symb` and so raises `NameError` whenever it runs. It is not modelled.
- SelectNext: when no occurrence exists, Tk's `mark_set('insert', '')` raises. The model ends the command at that point: the selection is cleared and the cursor is unchanged.
- SymApply: states only the buffer and the status; the cursor and the selection are as `Call` states them.
- Editor.Valid: it does not include the bridge's own invariant. The constructor establishes that invariant, and no editor method touches the bridge.
