/**
 The notebook-cleaning pass: insert section headers before code cells, clear
 code-cell outputs, and trim trailing empty code cells. The script mutates the
 notebook's cell list in place; here every pass is a function from the old
 list to the new one.
 */
module CleanNotebooks {
  import opened Text
  import opened Cells

  function Min(a: nat, b: nat): nat {
    if a <= b then a else b
  }

  /** Number of code cells in `cells`. */
  function CodeCount(cells: seq<Cell>): (n: nat)
    ensures n <= |cells|
  {
    if cells == [] then 0
    else (if IsCode(cells[0]) then 1 else 0) + CodeCount(cells[1..])
  }

  // ---------------------------------------------------------------------------
  // Trailing empty code cells
  // ---------------------------------------------------------------------------

  /** Pops empty code cells off the end of the list, stopping at the first
      cell from the end that is not a code cell or has non-blank source. The
      result is a prefix of the input, everything removed was an empty code
      cell, and the result does not end in one. */
  function RemoveTrailingEmptyCells(cells: seq<Cell>): (r: seq<Cell>)
    ensures r <= cells
    ensures forall i :: |r| <= i < |cells| ==> IsEmptyCode(cells[i])
    ensures r == [] || !IsEmptyCode(r[|r| - 1])
    decreases |cells|
  {
    if |cells| > 0 && IsCode(cells[|cells| - 1]) then
      if IsBlank(Join(cells[|cells| - 1].source)) then
        RemoveTrailingEmptyCells(cells[..|cells| - 1])
      else
        cells
    else
      cells
  }

  /** The three properties of `RemoveTrailingEmptyCells` determine its result:
      it is the only prefix whose removed tail consists of empty code cells and
      that does not itself end in an empty code cell. In particular a trailing
      markdown or raw cell stops the trimming, however blank its text. */
  lemma {:induction false} TrimmedIsUnique(cells: seq<Cell>, p: seq<Cell>)
    requires p <= cells
    requires forall i :: |p| <= i < |cells| ==> IsEmptyCode(cells[i])
    requires p == [] || !IsEmptyCode(p[|p| - 1])
    ensures RemoveTrailingEmptyCells(cells) == p
    decreases |cells|
  {
    if |p| < |cells| {
      var init := cells[..|cells| - 1];
      assert IsEmptyCode(cells[|cells| - 1]);
      assert p <= init;
      TrimmedIsUnique(init, p);
    }
  }

  /** Trimming a trimmed list changes nothing. */
  lemma TrimIdempotent(cells: seq<Cell>)
    ensures RemoveTrailingEmptyCells(RemoveTrailingEmptyCells(cells))
         == RemoveTrailingEmptyCells(cells)
  {
  }

  // ---------------------------------------------------------------------------
  // Output clearing
  // ---------------------------------------------------------------------------

  /** Clears one cell: a code cell gets `outputs = []` and
      `execution_count = None`; any other cell is returned as it is. */
  function ClearCell(c: Cell): (d: Cell)
    ensures IsCleared(d) && SameContent(c, d)
    ensures !IsCode(c) ==> d == c
    ensures IsCleared(c) ==> d == c
  {
    if IsCode(c) then c.(outputs := Some([]), executionCount := Null) else c
  }

  /** Clears every cell of the list. Length and order are kept; every code
      cell ends up cleared with its source, id and metadata untouched; every
      other cell is unchanged. */
  function ClearOutputs(cells: seq<Cell>): (r: seq<Cell>)
    ensures |r| == |cells|
    ensures forall i :: 0 <= i < |r| ==> IsCleared(r[i]) && SameContent(cells[i], r[i])
    ensures forall i :: 0 <= i < |r| && !IsCode(cells[i]) ==> r[i] == cells[i]
  {
    seq(|cells|, i requires 0 <= i < |cells| => ClearCell(cells[i]))
  }

  /** The contract of `ClearOutputs` determines its result: any list related
      to the input as that contract says is the cleared list. */
  lemma ClearOutputsIsUnique(cells: seq<Cell>, r: seq<Cell>)
    requires |r| == |cells|
    requires forall i :: 0 <= i < |r| ==> IsCleared(r[i]) && SameContent(cells[i], r[i])
    requires forall i :: 0 <= i < |r| && !IsCode(cells[i]) ==> r[i] == cells[i]
    ensures ClearOutputs(cells) == r
  {
  }

  /** A list whose cells are all cleared is its own clearing. */
  lemma ClearOutputsOfCleared(cells: seq<Cell>)
    requires forall i :: 0 <= i < |cells| ==> IsCleared(cells[i])
    ensures ClearOutputs(cells) == cells
  {
  }

  /** Clearing twice is clearing once. */
  lemma ClearOutputsIdempotent(cells: seq<Cell>)
    ensures ClearOutputs(ClearOutputs(cells)) == ClearOutputs(cells)
  {
  }

  /** Clearing does not change which cells are code cells, nor which are
      empty code cells. */
  lemma ClearOutputsKeepsKinds(cells: seq<Cell>)
    ensures CodeCount(ClearOutputs(cells)) == CodeCount(cells)
    ensures forall i :: 0 <= i < |cells| ==>
              IsEmptyCode(ClearOutputs(cells)[i]) == IsEmptyCode(cells[i])
  {
    ClearOutputsKeepsCodeCount(cells);
  }

  lemma {:induction false} ClearOutputsKeepsCodeCount(cells: seq<Cell>)
    ensures CodeCount(ClearOutputs(cells)) == CodeCount(cells)
    decreases |cells|
  {
    if cells != [] {
      var cleared := ClearOutputs(cells);
      ClearOutputsKeepsCodeCount(cells[1..]);
      assert cleared[1..] == ClearOutputs(cells[1..]);
      assert SameContent(cells[0], cleared[0]);
    }
  }

  /** Clearing and trimming commute: trimming only looks at cell types and
      sources, which clearing keeps. */
  lemma {:induction false} TrimCommutesWithClear(cells: seq<Cell>)
    ensures RemoveTrailingEmptyCells(ClearOutputs(cells))
         == ClearOutputs(RemoveTrailingEmptyCells(cells))
    decreases |cells|
  {
    var n := |cells|;
    var cleared := ClearOutputs(cells);
    if n > 0 {
      assert SameContent(cells[n - 1], cleared[n - 1]);
      if IsEmptyCode(cells[n - 1]) {
        var init := cells[..n - 1];
        assert cleared[..n - 1] == ClearOutputs(init);
        TrimCommutesWithClear(init);
        assert RemoveTrailingEmptyCells(cleared) == RemoveTrailingEmptyCells(cleared[..n - 1]);
      }
    }
  }

  /** A code cell built by `MakeCodeCell` is already cleared. */
  lemma FreshCodeCellIsCleared(source: SourceArg)
    ensures ClearCell(MakeCodeCell(source)) == MakeCodeCell(source)
    ensures ClearOutputs([MakeCodeCell(source)]) == [MakeCodeCell(source)]
  {
  }

  /** A header cell built by `MakeMarkdownCell` passes every step untouched:
      clearing leaves it as it is, header insertion never drops it, and at
      the end of a list it stops the trimming, however blank its text. */
  lemma FreshMarkdownCellSurvives(cells: seq<Cell>, text: string)
    ensures ClearOutputs([MakeMarkdownCell(text)]) == [MakeMarkdownCell(text)]
    ensures Kept([MakeMarkdownCell(text)]) == [MakeMarkdownCell(text)]
    ensures RemoveTrailingEmptyCells(cells + [MakeMarkdownCell(text)])
         == cells + [MakeMarkdownCell(text)]
  {
    var m := MakeMarkdownCell(text);
    assert Kept([m]) == [m] + Kept([m][1..]);
    TrimmedIsUnique(cells + [m], cells + [m]);
  }

  // ---------------------------------------------------------------------------
  // Section headers
  // ---------------------------------------------------------------------------

  /** The cells that survive header insertion: every cell except the empty
      code cells, in their original order. */
  ghost function Kept(cells: seq<Cell>): seq<Cell>
    decreases |cells|
  {
    if cells == [] then []
    else (if IsEmptyCode(cells[0]) then [] else [cells[0]]) + Kept(cells[1..])
  }

  /** `Kept` is a filter: it holds exactly the input's cells that are not
      empty code cells, and no more cells than the input. */
  lemma {:induction false} KeptMembers(cells: seq<Cell>)
    ensures |Kept(cells)| <= |cells|
    ensures NoEmptyCode(Kept(cells))
    ensures forall c :: c in Kept(cells) <==> c in cells && !IsEmptyCode(c)
    decreases |cells|
  {
    if cells != [] {
      KeptMembers(cells[1..]);
      var head := if IsEmptyCode(cells[0]) then [] else [cells[0]];
      assert Kept(cells) == head + Kept(cells[1..]);
      assert cells == [cells[0]] + cells[1..];
    }
  }

  /** `Kept` distributes over concatenation, so it preserves relative order. */
  lemma {:induction false} KeptAppend(a: seq<Cell>, b: seq<Cell>)
    ensures Kept(a + b) == Kept(a) + Kept(b)
    decreases |a|
  {
    if a != [] {
      var head := if IsEmptyCode(a[0]) then [] else [a[0]];
      assert (a + b)[0] == a[0] && (a + b)[1..] == a[1..] + b;
      KeptAppend(a[1..], b);
      KeptStep(a + b);
      KeptStep(a);
      assert head + (Kept(a[1..]) + Kept(b)) == (head + Kept(a[1..])) + Kept(b);
    } else {
      assert a + b == b;
    }
  }

  lemma KeptStep(cells: seq<Cell>)
    requires cells != []
    ensures Kept(cells) == (if IsEmptyCode(cells[0]) then [] else [cells[0]]) + Kept(cells[1..])
  {
  }

  /** `Kept` leaves a list without empty code cells unchanged. */
  lemma {:induction false} KeptOfClean(cells: seq<Cell>)
    requires NoEmptyCode(cells)
    ensures Kept(cells) == cells
    decreases |cells|
  {
    if cells != [] {
      KeptOfClean(cells[1..]);
    }
  }

  /** The header loop from cell `cells[0]` on, with `codeIdx` non-empty code
      cells already seen: empty code cells are skipped, and the next header,
      while any is left, goes in front of each remaining code cell. */
  function WithHeaders(cells: seq<Cell>, headers: seq<string>, codeIdx: nat): seq<Cell>
    decreases |cells|
  {
    if cells == [] then []
    else
      var cell := cells[0];
      if IsCode(cell) then
        if IsBlank(Join(cell.source)) then
          WithHeaders(cells[1..], headers, codeIdx)
        else
          (if codeIdx < |headers| then [MakeMarkdownCell(headers[codeIdx])] else [])
          + [cell] + WithHeaders(cells[1..], headers, codeIdx + 1)
      else
        [cell] + WithHeaders(cells[1..], headers, codeIdx)
  }

  /** Inserts `headers[i]`, as a markdown cell, in front of the i-th non-empty
      code cell, dropping empty code cells. With no header list the cells are
      returned unchanged; an empty header list still drops empty code cells. */
  function AddHeaders(cells: seq<Cell>, headers: Option<seq<string>>): (r: seq<Cell>)
    ensures headers == None ==> r == cells
    ensures headers != None ==> NoEmptyCode(r)
  {
    match headers
    case None => cells
    case Some(hs) =>
      WithHeadersDropsEmptyCode(cells, hs, 0);
      WithHeaders(cells, hs, 0)
  }

  /** Header cells are markdown and empty code cells are skipped, so the
      result of the header loop holds no empty code cell. */
  lemma {:induction false} WithHeadersDropsEmptyCode(cells: seq<Cell>, headers: seq<string>, codeIdx: nat)
    ensures NoEmptyCode(WithHeaders(cells, headers, codeIdx))
    decreases |cells|
  {
    if cells != [] {
      var c := cells[0];
      var next := if IsCode(c) then codeIdx + 1 else codeIdx;
      WithHeadersDropsEmptyCode(cells[1..], headers, codeIdx);
      WithHeadersDropsEmptyCode(cells[1..], headers, next);
      if !IsEmptyCode(c) {
        WithHeadersStep(cells, headers, codeIdx);
      }
    }
  }

  /** The header loop as the script writes it: a single pass over the cells
      with an output list and a counter of the code cells seen so far. */
  method AddHeadersToDistributionNotebook(cells: seq<Cell>, headers: Option<seq<string>>)
    returns (r: seq<Cell>)
    ensures r == AddHeaders(cells, headers)
  {
    if headers == None {
      return cells;
    }
    var hs := headers.value;
    var newCells: seq<Cell> := [];
    var codeIdx: nat := 0;
    assert cells[0..] == cells;
    for i := 0 to |cells|
      invariant newCells + WithHeaders(cells[i..], hs, codeIdx) == WithHeaders(cells, hs, 0)
    {
      var cell := cells[i];
      ghost var tail := cells[i..];
      assert tail[0] == cell && tail[1..] == cells[i + 1..];
      if IsCode(cell) {
        if IsBlank(Join(cell.source)) {
          WithHeadersSkip(tail, hs, codeIdx);
          continue;
        }
        WithHeadersStep(tail, hs, codeIdx);
        ghost var before := newCells;
        if codeIdx < |hs| {
          newCells := newCells + [MakeMarkdownCell(hs[codeIdx])];
        }
        codeIdx := codeIdx + 1;
        newCells := newCells + [cell];
        AppendAssociates(before, newCells, WithHeaders(tail, hs, codeIdx - 1), WithHeaders(cells[i + 1..], hs, codeIdx));
      } else {
        WithHeadersStep(tail, hs, codeIdx);
        ghost var before := newCells;
        newCells := newCells + [cell];
        AppendAssociates(before, newCells, WithHeaders(tail, hs, codeIdx), WithHeaders(cells[i + 1..], hs, codeIdx));
      }
    }
    assert newCells + [] == newCells;
    r := newCells;
  }

  /** One step of the header loop on an empty code cell: it is skipped. */
  lemma WithHeadersSkip(f: seq<Cell>, headers: seq<string>, codeIdx: nat)
    requires f != [] && IsEmptyCode(f[0])
    ensures WithHeaders(f, headers, codeIdx) == WithHeaders(f[1..], headers, codeIdx)
  {
  }

  /** Moving the cells just appended to the output list from the part still
      to be produced keeps the whole. */
  lemma AppendAssociates(before: seq<Cell>, after: seq<Cell>, todo: seq<Cell>, rest: seq<Cell>)
    requires before <= after && todo == after[|before|..] + rest
    ensures before + todo == after + rest
  {
  }

  /** Skipping empty code cells inside the loop is the same as filtering them
      out first. */
  lemma {:induction false} WithHeadersFiltersFirst(cells: seq<Cell>, headers: seq<string>, codeIdx: nat)
    ensures WithHeaders(cells, headers, codeIdx) == WithHeaders(Kept(cells), headers, codeIdx)
    decreases |cells|
  {
    if cells != [] {
      var c, rest := cells[0], cells[1..];
      var next := if IsCode(c) && !IsEmptyCode(c) then codeIdx + 1 else codeIdx;
      WithHeadersFiltersFirst(rest, headers, next);
      if !IsEmptyCode(c) {
        var k := Kept(cells);
        assert k == [c] + Kept(rest);
        assert k[0] == c && k[1..] == Kept(rest);
        var hdr := if IsCode(c) && codeIdx < |headers| then [MakeMarkdownCell(headers[codeIdx])] else [];
        assert WithHeaders(k, headers, codeIdx) == hdr + [c] + WithHeaders(Kept(rest), headers, next);
        assert WithHeaders(cells, headers, codeIdx) == hdr + [c] + WithHeaders(rest, headers, next);
      } else {
        assert Kept(cells) == [] + Kept(rest) == Kept(rest);
        assert WithHeaders(cells, headers, codeIdx) == WithHeaders(rest, headers, codeIdx);
      }
    }
  }

  /** Headers not yet used when the counter stands at `codeIdx`. */
  function Available(headers: seq<string>, codeIdx: nat): nat {
    if codeIdx < |headers| then |headers| - codeIdx else 0
  }

  ghost predicate CellAt(cells: seq<Cell>, p: int, c: Cell) {
    0 <= p < |cells| && cells[p] == c
  }

  /** In `r`, the header list applied to `f` with `available` headers left,
      cell `f[j]` sits `j` places in plus one place per header put in front of
      it or of an earlier code cell. */
  ghost predicate KeptCellInPlace(r: seq<Cell>, f: seq<Cell>, available: nat, j: nat)
    requires j < |f|
  {
    CellAt(r, j + Min(available, CodeCount(f[..j + 1])), f[j])
  }

  /** In `r`, if `f[j]` is a code cell with `n` code cells before it and the
      header `n` places past the counter exists, that header is the cell
      right in front of `f[j]`. */
  ghost predicate HeaderInPlace(r: seq<Cell>, f: seq<Cell>, headers: seq<string>, codeIdx: nat, j: nat)
    requires j < |f|
  {
    var n := CodeCount(f[..j]);
    IsCode(f[j]) && n < Available(headers, codeIdx) ==>
      CellAt(r, j + n, MakeMarkdownCell(headers[codeIdx + n]))
  }

  /** One step of the header loop on a cell that is kept. */
  lemma WithHeadersStep(f: seq<Cell>, headers: seq<string>, codeIdx: nat)
    requires f != [] && !IsEmptyCode(f[0])
    ensures var header := if IsCode(f[0]) && codeIdx < |headers|
                          then [MakeMarkdownCell(headers[codeIdx])] else [];
            var next := if IsCode(f[0]) then codeIdx + 1 else codeIdx;
            WithHeaders(f, headers, codeIdx) == header + [f[0]] + WithHeaders(f[1..], headers, next)
    ensures var h := if IsCode(f[0]) && codeIdx < |headers| then 1 else 0;
            var next := if IsCode(f[0]) then codeIdx + 1 else codeIdx;
            h <= |WithHeaders(f, headers, codeIdx)|
            && WithHeaders(f, headers, codeIdx)[h..] == [f[0]] + WithHeaders(f[1..], headers, next)
  {
  }

  lemma NoEmptyCodeTail(f: seq<Cell>)
    requires f != [] && NoEmptyCode(f)
    ensures !IsEmptyCode(f[0]) && NoEmptyCode(f[1..])
  {
    forall i | 0 <= i < |f| - 1
      ensures !IsEmptyCode(f[1..][i])
    {
      assert f[1..][i] == f[i + 1];
    }
  }

  lemma CodeCountOfPrefix(f: seq<Cell>, j: nat)
    requires 0 < j <= |f|
    ensures CodeCount(f[..j]) == (if IsCode(f[0]) then 1 else 0) + CodeCount(f[1..][..j - 1])
  {
    assert f[..j][1..] == f[1..][..j - 1];
  }

  /** Inserting headers into a list without empty code cells adds one cell
      per code cell, as long as headers are left. */
  lemma {:induction false} WithHeadersLength(f: seq<Cell>, headers: seq<string>, codeIdx: nat)
    requires NoEmptyCode(f)
    ensures |WithHeaders(f, headers, codeIdx)|
         == |f| + Min(Available(headers, codeIdx), CodeCount(f))
    decreases |f|
  {
    if f != [] {
      NoEmptyCodeTail(f);
      WithHeadersStep(f, headers, codeIdx);
      WithHeadersLength(f[1..], headers, if IsCode(f[0]) then codeIdx + 1 else codeIdx);
    }
  }

  /** Each cell `f[j]` of a list without empty code cells keeps its place
      relative to the others and moves right by the number of headers placed
      in front of it or of an earlier code cell. */
  lemma {:induction false} WithHeadersKeepsCells(f: seq<Cell>, headers: seq<string>, codeIdx: nat)
    requires NoEmptyCode(f)
    ensures forall j: nat :: j < |f| ==>
              KeptCellInPlace(WithHeaders(f, headers, codeIdx), f, Available(headers, codeIdx), j)
    decreases |f|
  {
    if f != [] {
      var next := if IsCode(f[0]) then codeIdx + 1 else codeIdx;
      NoEmptyCodeTail(f);
      WithHeadersKeepsCells(f[1..], headers, next);
      forall j: nat | j < |f|
        ensures KeptCellInPlace(WithHeaders(f, headers, codeIdx), f, Available(headers, codeIdx), j)
      {
        if j == 0 {
          KeptFirstCellInPlace(f, headers, codeIdx);
        } else {
          assert KeptCellInPlace(WithHeaders(f[1..], headers, next), f[1..], Available(headers, next), j - 1);
          KeptCellInPlaceStep(f, headers, codeIdx, j);
        }
      }
    }
  }

  lemma KeptFirstCellInPlace(f: seq<Cell>, headers: seq<string>, codeIdx: nat)
    requires f != [] && !IsEmptyCode(f[0])
    ensures KeptCellInPlace(WithHeaders(f, headers, codeIdx), f, Available(headers, codeIdx), 0)
  {
    WithHeadersStep(f, headers, codeIdx);
    CodeCountOfPrefix(f, 1);
    assert CodeCount(f[1..][..0]) == 0;
  }

  /** A cell after the first keeps its place if it did so in the tail. */
  lemma KeptCellInPlaceStep(f: seq<Cell>, headers: seq<string>, codeIdx: nat, j: nat)
    requires 0 < j < |f| && !IsEmptyCode(f[0])
    requires var next := if IsCode(f[0]) then codeIdx + 1 else codeIdx;
             KeptCellInPlace(WithHeaders(f[1..], headers, next), f[1..], Available(headers, next), j - 1)
    ensures KeptCellInPlace(WithHeaders(f, headers, codeIdx), f, Available(headers, codeIdx), j)
  {
    var rest := f[1..];
    var next := if IsCode(f[0]) then codeIdx + 1 else codeIdx;
    var a, a' := Available(headers, codeIdx), Available(headers, next);
    var h := if IsCode(f[0]) && codeIdx < |headers| then 1 else 0;
    WithHeadersStep(f, headers, codeIdx);
    CodeCountOfPrefix(f, j + 1);
    assert rest[..(j - 1) + 1] == rest[..j];
    assert rest[j - 1] == f[j];
    var p' := (j - 1) + Min(a', CodeCount(rest[..j]));
    assert j + Min(a, CodeCount(f[..j + 1])) == h + 1 + p';
    ShiftPosition(WithHeaders(f, headers, codeIdx), WithHeaders(rest, headers, next), h, f[0], f[j], p');
  }

  /** A cell at position `p'` of the tail that follows `h` cells and one more
      cell is at position `h + 1 + p'` of the whole. */
  lemma ShiftPosition(r: seq<Cell>, r': seq<Cell>, h: nat, first: Cell, c: Cell, p': int)
    requires h <= |r| && r[h..] == [first] + r'
    requires CellAt(r', p', c)
    ensures CellAt(r, h + 1 + p', c)
  {
    assert r[h + 1 + p'] == r[h..][1 + p'];
  }

  /** In a list without empty code cells, the code cell `f[j]` with `n` code
      cells before it is immediately preceded by the header `n` places past
      the counter, as long as that header exists. */
  lemma {:induction false} WithHeadersPlacesHeaders(f: seq<Cell>, headers: seq<string>, codeIdx: nat)
    requires NoEmptyCode(f)
    ensures forall j: nat :: j < |f| ==>
              HeaderInPlace(WithHeaders(f, headers, codeIdx), f, headers, codeIdx, j)
    decreases |f|
  {
    if f != [] {
      var rest := f[1..];
      var next := if IsCode(f[0]) then codeIdx + 1 else codeIdx;
      NoEmptyCodeTail(f);
      WithHeadersPlacesHeaders(rest, headers, next);
      forall j: nat | 0 < j < |f|
        ensures HeaderInPlace(WithHeaders(f, headers, codeIdx), f, headers, codeIdx, j)
      {
        assert HeaderInPlace(WithHeaders(f[1..], headers, next), f[1..], headers, next, j - 1);
        HeaderInPlaceStep(f, headers, codeIdx, j);
      }
      assert HeaderInPlace(WithHeaders(f, headers, codeIdx), f, headers, codeIdx, 0) by {
        WithHeadersStep(f, headers, codeIdx);
      }
    }
  }

  /** A header after the first cell is in place if it was so in the tail. */
  lemma HeaderInPlaceStep(f: seq<Cell>, headers: seq<string>, codeIdx: nat, j: nat)
    requires 0 < j < |f| && !IsEmptyCode(f[0])
    requires var next := if IsCode(f[0]) then codeIdx + 1 else codeIdx;
             HeaderInPlace(WithHeaders(f[1..], headers, next), f[1..], headers, next, j - 1)
    ensures HeaderInPlace(WithHeaders(f, headers, codeIdx), f, headers, codeIdx, j)
  {
    var next := if IsCode(f[0]) then codeIdx + 1 else codeIdx;
    CodeCountOfPrefix(f, j);
    assert f[1..][j - 1] == f[j];
    if IsCode(f[j]) && CodeCount(f[..j]) < Available(headers, codeIdx) {
      var n' := CodeCount(f[1..][..j - 1]);
      assert n' < Available(headers, next) && next + n' == codeIdx + CodeCount(f[..j]);
      HeaderShifted(f, headers, codeIdx, j);
    }
  }

  lemma HeaderShifted(f: seq<Cell>, headers: seq<string>, codeIdx: nat, j: nat)
    requires 0 < j < |f| && !IsEmptyCode(f[0])
    requires CodeCount(f[..j]) < Available(headers, codeIdx)
    requires var next := if IsCode(f[0]) then codeIdx + 1 else codeIdx;
             var n' := CodeCount(f[1..][..j - 1]);
             && j + CodeCount(f[..j]) == (if IsCode(f[0]) && codeIdx < |headers| then 1 else 0) + 1 + (j - 1) + n'
             && next + n' == codeIdx + CodeCount(f[..j])
             && CellAt(WithHeaders(f[1..], headers, next), (j - 1) + n', MakeMarkdownCell(headers[next + n']))
    ensures CellAt(WithHeaders(f, headers, codeIdx), j + CodeCount(f[..j]),
                   MakeMarkdownCell(headers[codeIdx + CodeCount(f[..j])]))
  {
    var next := if IsCode(f[0]) then codeIdx + 1 else codeIdx;
    var h := if IsCode(f[0]) && codeIdx < |headers| then 1 else 0;
    var n' := CodeCount(f[1..][..j - 1]);
    WithHeadersStep(f, headers, codeIdx);
    ShiftPosition(WithHeaders(f, headers, codeIdx), WithHeaders(f[1..], headers, next), h, f[0],
                  MakeMarkdownCell(headers[next + n']), (j - 1) + n');
  }

  /** Header insertion in terms of the input: with `f` the input without its
      empty code cells, the result holds `min(|headers|, code cells of f)`
      header cells on top of `f`; every cell of `f` appears, in order, shifted
      right by the headers placed up to and including it; and `headers[i]`
      sits immediately before the i-th code cell of `f`. */
  lemma AddHeadersPlacement(cells: seq<Cell>, headers: seq<string>)
    ensures |AddHeaders(cells, Some(headers))|
         == |Kept(cells)| + Min(|headers|, CodeCount(Kept(cells)))
    ensures forall j: nat :: j < |Kept(cells)| ==>
              KeptCellInPlace(AddHeaders(cells, Some(headers)), Kept(cells), |headers|, j)
    ensures forall j: nat :: j < |Kept(cells)| ==>
              HeaderInPlace(AddHeaders(cells, Some(headers)), Kept(cells), headers, 0, j)
  {
    var f := Kept(cells);
    KeptMembers(cells);
    WithHeadersFiltersFirst(cells, headers, 0);
    WithHeadersLength(f, headers, 0);
    WithHeadersKeepsCells(f, headers, 0);
    WithHeadersPlacesHeaders(f, headers, 0);
  }

  /** With an empty header list the pass only drops the empty code cells. */
  lemma {:induction false} NoHeadersOnlyFilters(cells: seq<Cell>)
    ensures AddHeaders(cells, Some([])) == Kept(cells)
    decreases |cells|
  {
    if cells != [] {
      NoHeadersOnlyFilters(cells[1..]);
      WithHeadersFiltersFirst(cells[1..], [], 0);
      WithHeadersFiltersFirst(cells[1..], [], 1);
      WithHeadersIgnoresIndexWithoutHeaders(Kept(cells[1..]), 0, 1);
    }
  }

  /** When no header can be placed any more, the counter's value no longer
      matters. */
  lemma {:induction false} WithHeadersIgnoresIndexWithoutHeaders(cells: seq<Cell>, i: nat, j: nat)
    ensures WithHeaders(cells, [], i) == WithHeaders(cells, [], j)
    decreases |cells|
  {
    if cells != [] {
      WithHeadersIgnoresIndexWithoutHeaders(cells[1..], i, j);
      WithHeadersIgnoresIndexWithoutHeaders(cells[1..], i + 1, j + 1);
      WithHeadersIgnoresIndexWithoutHeaders(cells[1..], i + 1, j);
      WithHeadersIgnoresIndexWithoutHeaders(cells[1..], i, j + 1);
    }
  }

  /** Header cells are markdown, so the code cells of the result are those
      that survive filtering. */
  lemma {:induction false} WithHeadersCodeCount(cells: seq<Cell>, headers: seq<string>, codeIdx: nat)
    ensures CodeCount(WithHeaders(cells, headers, codeIdx)) == CodeCount(Kept(cells))
    decreases |cells|
  {
    if cells != [] {
      var c := cells[0];
      var next := if IsCode(c) then codeIdx + 1 else codeIdx;
      WithHeadersCodeCount(cells[1..], headers, next);
      WithHeadersCodeCount(cells[1..], headers, codeIdx);
      CodeCountAppend(if IsEmptyCode(c) then [] else [c], Kept(cells[1..]));
      var r' := WithHeaders(cells[1..], headers, next);
      if IsCode(c) && !IsEmptyCode(c) && codeIdx < |headers| {
        CodeCountAppend([MakeMarkdownCell(headers[codeIdx])], [c] + r');
        CodeCountAppend([c], r');
        assert WithHeaders(cells, headers, codeIdx)
            == [MakeMarkdownCell(headers[codeIdx])] + ([c] + r');
      } else if !IsEmptyCode(c) {
        CodeCountAppend([c], r');
      }
    }
  }

  lemma {:induction false} CodeCountAppend(a: seq<Cell>, b: seq<Cell>)
    ensures CodeCount(a + b) == CodeCount(a) + CodeCount(b)
    decreases |a|
  {
    if a != [] {
      assert (a + b)[1..] == a[1..] + b;
      CodeCountAppend(a[1..], b);
    } else {
      assert a + b == b;
    }
  }

  // ---------------------------------------------------------------------------
  // The whole pass
  // ---------------------------------------------------------------------------

  /** The cleaning steps of `process_notebook` on the notebook's cell list:
      headers (only when a header list is given), then clearing, then
      trimming. Afterwards no code cell has outputs or an execution count, and
      the list does not end in an empty code cell; it is the cleared list with
      only its trailing empty code cells cut off. */
  function ProcessNotebook(cells: seq<Cell>, headers: Option<seq<string>>): (r: seq<Cell>)
    ensures forall i :: 0 <= i < |r| ==> IsCleared(r[i])
    ensures r == [] || !IsEmptyCode(r[|r| - 1])
    ensures r <= ClearOutputs(AddHeaders(cells, headers))
    ensures forall i :: |r| <= i < |ClearOutputs(AddHeaders(cells, headers))| ==>
              IsEmptyCode(ClearOutputs(AddHeaders(cells, headers))[i])
  {
    var withHeaders := if headers != None then AddHeaders(cells, headers) else cells;
    var cleared := ClearOutputs(withHeaders);
    RemoveTrailingEmptyCells(cleared)
  }

  /** With a header list the trimming step has nothing left to do: header
      insertion already dropped every empty code cell. */
  lemma ProcessWithHeadersTrimsNothing(cells: seq<Cell>, headers: seq<string>)
    ensures ProcessNotebook(cells, Some(headers))
         == ClearOutputs(AddHeaders(cells, Some(headers)))
  {
    var cleared := ClearOutputs(AddHeaders(cells, Some(headers)));
    ClearOutputsKeepsKinds(AddHeaders(cells, Some(headers)));
    TrimmedIsUnique(cleared, cleared);
  }

  /** Cleaning an already cleaned notebook again, without headers, changes
      nothing. */
  lemma ProcessIdempotentWithoutHeaders(cells: seq<Cell>, headers: Option<seq<string>>)
    ensures ProcessNotebook(ProcessNotebook(cells, headers), None)
         == ProcessNotebook(cells, headers)
  {
    var r := ProcessNotebook(cells, headers);
    ClearOutputsOfCleared(r);
    TrimmedIsUnique(r, r);
  }

  /** Header insertion does not look for existing headers: cleaning a cleaned
      notebook again with the same header list puts another header in front
      of each of the first code cells, so the notebook grows, and every cell
      of the once-cleaned notebook reappears, in order, behind the headers
      placed up to it. */
  lemma ReprocessingAddsHeadersAgain(cells: seq<Cell>, headers: seq<string>)
    ensures var once := ProcessNotebook(cells, Some(headers));
            |ProcessNotebook(once, Some(headers))|
              == |once| + Min(|headers|, CodeCount(Kept(cells)))
    ensures var once := ProcessNotebook(cells, Some(headers));
            forall j: nat :: j < |once| ==>
              HeaderInPlace(ProcessNotebook(once, Some(headers)), once, headers, 0, j)
    ensures var once := ProcessNotebook(cells, Some(headers));
            forall j: nat :: j < |once| ==>
              KeptCellInPlace(ProcessNotebook(once, Some(headers)), once, |headers|, j)
  {
    var added := AddHeaders(cells, Some(headers));
    var once := ClearOutputs(added);
    ProcessWithHeadersTrimsNothing(cells, headers);
    assert ProcessNotebook(cells, Some(headers)) == once;
    ClearOutputsKeepsKinds(added);
    assert NoEmptyCode(once);
    var again := AddHeaders(once, Some(headers));
    ProcessWithHeadersTrimsNothing(once, headers);
    assert ProcessNotebook(once, Some(headers)) == ClearOutputs(again);
    WithHeadersLength(once, headers, 0);
    assert |again| == |once| + Min(|headers|, CodeCount(once));
    WithHeadersCodeCount(cells, headers, 0);
    assert CodeCount(once) == CodeCount(Kept(cells));
    KeptOfClean(once);
    AddHeadersPlacement(once, headers);
    forall j: nat | j < |once|
      ensures HeaderInPlace(ClearOutputs(again), once, headers, 0, j)
      ensures KeptCellInPlace(ClearOutputs(again), once, |headers|, j)
    {
      assert HeaderInPlace(again, once, headers, 0, j);
      assert KeptCellInPlace(again, once, |headers|, j);
      ClearingKeepsPlacement(again, once, headers, j);
    }
  }

  /** Clearing a list moves no cell and changes neither header cells nor
      cells that are already cleared, so placement facts survive it. */
  lemma ClearingKeepsPlacement(r: seq<Cell>, f: seq<Cell>, headers: seq<string>, j: nat)
    requires j < |f| && IsCleared(f[j])
    requires HeaderInPlace(r, f, headers, 0, j)
    requires KeptCellInPlace(r, f, |headers|, j)
    ensures HeaderInPlace(ClearOutputs(r), f, headers, 0, j)
    ensures KeptCellInPlace(ClearOutputs(r), f, |headers|, j)
  {
  }
}
