/** The `.docx` filter of `DocxToPdfApp.drop_files`:
    `[f for f in files if f.lower().endswith('.docx')]`. */
module DocxFilter {
  import opened Text

  /** The path, lower-cased, ends with `.docx`. */
  predicate IsDocx(path: string): (b: bool)
    ensures b <==> 5 <= |path| && Lower(path[|path| - 5..]) == ".docx"
  {
    assert 5 <= |path| ==> Lower(path)[|path| - 5..] == Lower(path[|path| - 5..]);
    EndsWith(Lower(path), ".docx")
  }

  lemma LowerCharIs(c: char, x: char)
    ensures 'a' <= x <= 'z' ==> (LowerChar(c) == x <==> c == x || c as int == x as int - 32)
    ensures !('a' <= x <= 'z') && !('A' <= x <= 'Z') ==> (LowerChar(c) == x <==> c == x)
  {
  }

  /** The test is a case-insensitive comparison of the last five characters with `.docx`. */
  lemma IsDocxCaseInsensitive(path: string)
    ensures IsDocx(path) <==>
      && |path| >= 5
      && path[|path| - 5] == '.'
      && (path[|path| - 4] == 'd' || path[|path| - 4] == 'D')
      && (path[|path| - 3] == 'o' || path[|path| - 3] == 'O')
      && (path[|path| - 2] == 'c' || path[|path| - 2] == 'C')
      && (path[|path| - 1] == 'x' || path[|path| - 1] == 'X')
  {
    if |path| >= 5 {
      var n := |path|;
      var tail := Lower(path)[n - 5..];
      assert tail == ".docx" <==>
        tail[0] == '.' && tail[1] == 'd' && tail[2] == 'o' && tail[3] == 'c' && tail[4] == 'x';
      LowerCharIs(path[n - 5], '.');
      LowerCharIs(path[n - 4], 'd');
      LowerCharIs(path[n - 3], 'o');
      LowerCharIs(path[n - 2], 'c');
      LowerCharIs(path[n - 1], 'x');
    }
  }

  /** The list comprehension: the .docx paths, in order, duplicates kept. */
  function FilterDocx(files: seq<string>): (docx: seq<string>)
    ensures |docx| <= |files|
    ensures forall k :: 0 <= k < |docx| ==> IsDocx(docx[k])
    decreases |files|
  {
    if files == [] then []
    else (if IsDocx(files[0]) then [files[0]] else []) + FilterDocx(files[1..])
  }

  /** Every .docx path is kept as often as it occurs, and no other path is kept. */
  lemma {:induction false} FilterDocxCounts(files: seq<string>)
    ensures forall f :: multiset(FilterDocx(files))[f] == if IsDocx(f) then multiset(files)[f] else 0
    decreases |files|
  {
    if files != [] {
      FilterDocxCounts(files[1..]);
      assert files == [files[0]] + files[1..];
    }
  }

  /** The positions from `from` on whose path is a .docx path, in increasing order. */
  function DocxPositions(files: seq<string>, from: nat): (idx: seq<nat>)
    requires from <= |files|
    ensures forall k :: 0 <= k < |idx| ==> from <= idx[k] < |files|
    ensures forall k, l :: 0 <= k < l < |idx| ==> idx[k] < idx[l]
    ensures forall i :: from <= i < |files| ==> (i in idx <==> IsDocx(files[i]))
    decreases |files| - from
  {
    if from == |files| then []
    else (if IsDocx(files[from]) then [from] else []) + DocxPositions(files, from + 1)
  }

  /** The filter picks exactly the positions whose path is a .docx path, and keeps them in
      their original order: the result is an order-preserving subsequence of the input. */
  lemma {:induction false} FilterKeepsDocxPositions(files: seq<string>, from: nat)
    requires from <= |files|
    ensures var idx := DocxPositions(files, from);
      && |FilterDocx(files[from..])| == |idx|
      && forall k :: 0 <= k < |idx| ==> FilterDocx(files[from..])[k] == files[idx[k]]
    decreases |files| - from
  {
    if from < |files| {
      var idx := DocxPositions(files, from);
      var idx' := DocxPositions(files, from + 1);
      var kept' := FilterDocx(files[from + 1..]);
      FilterKeepsDocxPositions(files, from + 1);
      assert files[from..][1..] == files[from + 1..];
      assert files[from..][0] == files[from];
      if IsDocx(files[from]) {
        assert FilterDocx(files[from..]) == [files[from]] + kept';
        assert idx == [from] + idx';
      } else {
        assert FilterDocx(files[from..]) == kept';
        assert idx == idx';
      }
    }
  }

  /** Nothing survives the filter exactly when no path is a .docx path. */
  lemma FilterEmptyIff(files: seq<string>)
    ensures FilterDocx(files) == [] <==> forall k :: 0 <= k < |files| ==> !IsDocx(files[k])
  {
    var docx := FilterDocx(files);
    FilterDocxCounts(files);
    if docx != [] {
      assert multiset(docx)[docx[0]] > 0;
      assert docx[0] in multiset(files);
    }
    forall k | 0 <= k < |files| && IsDocx(files[k]) ensures docx != [] {
      assert files[k] in multiset(files);
      assert multiset(docx)[files[k]] > 0;
    }
  }

  lemma UpperCaseKept()
    ensures IsDocx("X.DOCX") && IsDocx("y.docx") && !IsDocx("z.pdf") && !IsDocx("docx")
  {
    IsDocxCaseInsensitive("X.DOCX");
    IsDocxCaseInsensitive("y.docx");
    IsDocxCaseInsensitive("z.pdf");
    IsDocxCaseInsensitive("docx");
  }
}
