/** The `/process-image` handler: runs the Kumiko segmenter, copies each panel it
    saved onto a transparent canvas of the page size at the panel's position, and
    stacks the canvases into a layered PSD with ImageMagick. The external programs,
    the file system and the JSON decoder are inputs; the model computes the
    commands the handler issues and the response or error it ends with. */
module Pipeline {
  import opened Wrappers
  import opened Http
  import opened Text
  import opened Ordering

  /** One external command as the operating system sees it: an argument vector,
      or a line handed to the shell. */
  datatype Command = Argv(args: seq<string>) | ShellLine(line: string)

  /** The external runs the handler starts, in the terms it builds them from;
      `Render` turns each into its command. */
  datatype Run =
    | Segment                                            // the Kumiko segmenter
    | CopyPanel(file: string, index: nat)                // copy a saved panel to `panel{index}.png`
    | DrawCanvas(w: int, h: int, x: int, y: int, index: nat)  // place it on a `w`x`h` canvas at (x, y)
    | BuildPsd(count: nat)                               // stack `count` canvases into the PSD

  /** What a finished subprocess reports. */
  datatype Completed = Completed(returnCode: int, stdout: string, stderr: string)

  /** One entry of the segmenter's panel directory and whether it is a regular file. */
  datatype DirEntry = DirEntry(name: string, isFile: bool)

  /** A record of the segmenter's JSON output, reduced to the two keys the handler
      reads; a key the record lacks is `None`. */
  datatype SegRecord = SegRecord(size: Option<seq<int>>, panels: Option<seq<seq<int>>>)

  /** What the outside world contributes to one run: the segmenter's completion,
      whether its panel directory exists, that directory's listing (in listing
      order), and the completion of the shell command that builds the PSD. */
  datatype World = World(segmenter: Completed, outputDirExists: bool, listing: seq<DirEntry>, psd: Completed)

  /** The JSON body of a successful response. */
  datatype Response = Response(message: string, size: seq<int>, panels: seq<string>)

  datatype Outcome = Success(response: Response) | Failure(error: HttpError)

  const KumikoPath := "/Users/shaun/Documents/kumiko/kumiko"

  /** `os.path.join(os.path.dirname(KumikoPath), "out", "panels")` */
  const OutputDir := "/Users/shaun/Documents/kumiko/out/panels"

  const SuccessMessage := "Image processed and PSD created successfully"

  const JsonFailure := "Failed to parse JSON output from kumiko."

  /** `str()` of the `IndexError` a list index past the end raises. */
  const IndexErrorText := "list index out of range"

  /** The fixed tail of the PSD command, after a space: a flattened copy of layers 0
      and 1 inserted at the bottom, and the output file. */
  const PsdTail := "\\( -clone 0,1 -flatten \\) -insert 0 output_psd.psd"

  /** `str()` of the `KeyError` a missing dictionary key raises: the quoted key, as
      when the first record lacks `size` or `panels` (app/main.py:55-56). */
  function KeyErrorText(key: string): string
  {
    "'" + key + "'"
  }

  /** The names of the directory entries that are regular files, in listing order. */
  function RegularFiles(listing: seq<DirEntry>): (names: seq<string>)
    ensures forall n :: multiset(names)[n] == multiset(listing)[DirEntry(n, true)]
    // corollaries of the count, kept for the callers
    ensures |names| <= |listing|
    ensures forall e :: e in listing && e.isFile ==> e.name in names
    ensures forall n :: n in names ==> DirEntry(n, true) in listing
  {
    if |listing| == 0 then []
    else
      assert listing == [listing[0]] + listing[1..];
      (if listing[0].isFile then [listing[0].name] else []) + RegularFiles(listing[1..])
  }

  /** The panel files in the order the handler processes them: sorted, and each
      regular file of the listing exactly as often as it is listed. */
  function PanelOrder(listing: seq<DirEntry>): (panels: seq<string>)
    ensures Sorted(panels)
    ensures forall n :: multiset(panels)[n] == multiset(listing)[DirEntry(n, true)]
  {
    SortedCopy(RegularFiles(listing))
  }

  /** `panel{i}.png`: the index reads back from between the prefix and the extension. */
  function PanelFile(i: nat): (f: string)
    ensures |f| > 9 && f[..5] == "panel" && f[|f| - 4..] == ".png"
    ensures ParseNat(f[5..|f| - 4]) == Some(i)
  {
    var d := NatToString(i);
    ParseNatToString(i);
    assert ("panel" + d + ".png")[5..|d| + 5] == d;
    "panel" + d + ".png"
  }

  /** `formatted_panel{i}.png`: the index reads back from between the prefix and the extension. */
  function FormattedFile(i: nat): (f: string)
    ensures |f| > 19 && f[..15] == "formatted_panel" && f[|f| - 4..] == ".png"
    ensures ParseNat(f[15..|f| - 4]) == Some(i)
  {
    var d := NatToString(i);
    ParseNatToString(i);
    assert ("formatted_panel" + d + ".png")[15..|d| + 15] == d;
    "formatted_panel" + d + ".png"
  }

  /** The canvas size argument `"{w}x{h}"`; it reads back as the page size. */
  function SizeArg(w: int, h: int): (arg: string)
    ensures ParseSizeArg(arg) == Some((w, h))
  {
    var parts := [IntToString(w), IntToString(h)];
    SplitJoin(parts, 'x');
    ParseIntToString(w);
    ParseIntToString(h);
    assert Join(parts, 'x') == IntToString(w) + "x" + IntToString(h);
    IntToString(w) + "x" + IntToString(h)
  }

  /** The placement argument `"+{x}+{y}"`; it reads back as the panel's position,
      negative coordinates included. */
  function GeometryArg(x: int, y: int): (arg: string)
    ensures ParseGeometryArg(arg) == Some((x, y))
  {
    SplitPlaced(IntToString(x), IntToString(y));
    ParseIntToString(x);
    ParseIntToString(y);
    "+" + IntToString(x) + "+" + IntToString(y)
  }

  /** A text that reads back as `(w, h)` is `SizeArg(w, h)` itself: the argument has
      exactly one spelling. */
  lemma SizeArgExact(s: string, w: int, h: int)
    requires ParseSizeArg(s) == Some((w, h))
    ensures s == SizeArg(w, h)
  {
    var parts := Split(s, 'x');
    ParseIntCanonical(parts[0], w);
    ParseIntCanonical(parts[1], h);
    JoinSplit(s, 'x');
    assert parts[1..] == [parts[1]];
  }

  /** A text that reads back as `(x, y)` is `GeometryArg(x, y)` itself. */
  lemma GeometryArgExact(s: string, x: int, y: int)
    requires ParseGeometryArg(s) == Some((x, y))
    ensures s == GeometryArg(x, y)
  {
    var parts := Split(s, '+');
    ParseIntCanonical(parts[1], x);
    ParseIntCanonical(parts[2], y);
    JoinSplit(s, '+');
    var tail := parts[1..];
    assert tail == [parts[1], parts[2]] && tail[1..] == [parts[2]];
    assert Join(tail, '+') == parts[1] + "+" + parts[2];
    assert s == parts[0] + "+" + Join(tail, '+');
  }

  /** `"+{a}+{b}"` cuts at `+` into an empty piece, `a` and `b` when neither holds a `+`. */
  lemma SplitPlaced(a: string, b: string)
    requires '+' !in a && '+' !in b
    ensures Split("+" + a + "+" + b, '+') == ["", a, b]
  {
    var parts := ["", a, b];
    assert parts[1..] == [a, b];
    assert Join(parts[1..], '+') == a + "+" + b;
    SplitJoin(parts, '+');
    assert Join(parts, '+') == "+" + a + "+" + b;
  }

  function FormattedFiles(n: nat): seq<string>
  {
    seq(n, i requires 0 <= i < n => FormattedFile(i))
  }

  /** The shell line that stacks the `n` canvases into `output_psd.psd`: it starts
      with the program and ends with the fixed tail, whatever `n` is. */
  function PsdCommand(n: nat): (line: string)
    ensures "magick " <= line
    ensures |line| >= |PsdTail| + 8 && line[|line| - |PsdTail| - 1..] == " " + PsdTail
  {
    var head, tail := "magick " + Join(FormattedFiles(n), ' '), " " + PsdTail;
    assert (head + tail)[|head|..] == tail;
    head + tail
  }

  /** The command line of each run. Only the PSD run goes through the shell; every
      other run is an argument vector naming its program first, and each per-panel
      command names the file it writes last. */
  function Render(r: Run): (c: Command)
    ensures r.BuildPsd? <==> c.ShellLine?
    ensures c.Argv? ==> |c.args| >= 3 && c.args[0] == (if r.Segment? then "python3" else "magick")
    ensures r.CopyPanel? ==> c.args[|c.args| - 1] == PanelFile(r.index)
    ensures r.DrawCanvas? ==> c.args[|c.args| - 1] == FormattedFile(r.index)
  {
    match r
    case Segment => Argv(["python3", KumikoPath, "-i", "test.png", "--save-panels"])
    case CopyPanel(file, i) => Argv(["magick", OutputDir + "/" + file, PanelFile(i)])
    case DrawCanvas(w, h, x, y, i) =>
      Argv(["magick", "-size", SizeArg(w, h), "canvas:none", "-compose", "over",
            PanelFile(i), "-geometry", GeometryArg(x, y), "-composite", FormattedFile(i)])
    case BuildPsd(n) => ShellLine(PsdCommand(n))
  }

  /** Reads back a `"{w}x{h}"` size argument. */
  function ParseSizeArg(s: string): Option<(int, int)>
  {
    var parts := Split(s, 'x');
    if |parts| != 2 then None
    else match (ParseInt(parts[0]), ParseInt(parts[1]))
      case (Some(w), Some(h)) => Some((w, h))
      case _ => None
  }

  /** Reads back a `"+{x}+{y}"` placement argument. */
  function ParseGeometryArg(s: string): Option<(int, int)>
  {
    var parts := Split(s, '+');
    if |parts| != 3 || parts[0] != "" then None
    else match (ParseInt(parts[1]), ParseInt(parts[2]))
      case (Some(x), Some(y)) => Some((x, y))
      case _ => None
  }

  /** Each round writes its own intermediate files: no two rounds share a
      `panel{i}.png` or a `formatted_panel{i}.png`, and the two kinds never clash. */
  lemma IntermediateFilesDistinct(i: nat, j: nat)
    ensures PanelFile(i) != FormattedFile(j)
    ensures PanelFile(i) == PanelFile(j) ==> i == j
    ensures FormattedFile(i) == FormattedFile(j) ==> i == j
  {
    assert PanelFile(i)[0] == 'p' && FormattedFile(j)[0] == 'f';
    if PanelFile(i) == PanelFile(j) {
      var a, b := PanelFile(i), PanelFile(j);
      assert a[5..|a| - 4] == NatToString(i);
      assert b[5..|b| - 4] == NatToString(j);
      NatToStringInjective(i, j);
    }
    if FormattedFile(i) == FormattedFile(j) {
      var a, b := FormattedFile(i), FormattedFile(j);
      assert a[15..|a| - 4] == NatToString(i);
      assert b[15..|b| - 4] == NatToString(j);
      NatToStringInjective(i, j);
    }
  }

  /** What the canvas run of round `i` does with its inputs: it reads the file the
      copy run of round `i` wrote, its size and placement arguments read back as the
      page size and the panel's position, and it writes `formatted_panel{i}.png`. */
  lemma CanvasArguments(file: string, w: int, h: int, x: int, y: int, i: nat)
    ensures var copy, draw := Render(CopyPanel(file, i)), Render(DrawCanvas(w, h, x, y, i));
      copy.Argv? && draw.Argv? &&
      copy.args == ["magick", OutputDir + "/" + file, PanelFile(i)] &&
      |draw.args| == 11 &&
      draw.args[6] == copy.args[2] &&
      ParseSizeArg(draw.args[2]) == Some((w, h)) &&
      ParseGeometryArg(draw.args[8]) == Some((x, y)) &&
      draw.args[10] == FormattedFile(i)
  {
  }

  /** The pieces of the PSD command line between single spaces, as `str.split(' ')`
      cuts them: `magick`, the canvases, then the pieces of the fixed tail. With no
      panels the join is empty and leaves an empty piece between two spaces. */
  function PsdWords(n: nat): seq<string>
  {
    PsdPieces(n) + Split(PsdTail, ' ')
  }

  /** The pieces the PSD command line is joined from: `magick`, the canvases (or
      one empty piece when there are none), and the fixed tail. */
  function PsdPieces(n: nat): seq<string>
  {
    ["magick"] + (if n == 0 then [""] else FormattedFiles(n))
  }

  lemma PsdCommandIsJoin(n: nat)
    ensures PsdCommand(n) == Join(PsdPieces(n) + [PsdTail], ' ')
  {
    var joined := Join(FormattedFiles(n), ' ');
    ConcatAssociative("magick " + joined, " ", PsdTail);
    assert PsdCommand(n) == "magick " + joined + " " + PsdTail;
    var middle := if n == 0 then [""] else FormattedFiles(n);
    assert Join(middle, ' ') == Join(FormattedFiles(n), ' ');
    JoinConcat(["magick"], middle, ' ');
    JoinConcat(PsdPieces(n), [PsdTail], ' ');
    assert "magick " == "magick" + [' '];
  }

  /** The PSD command names `magick`, then `formatted_panel0.png` … `formatted_panel{n-1}.png`
      in round order, one space apart, then the same fixed tail whatever `n` is. */
  lemma PsdCommandWords(n: nat)
    ensures Split(PsdCommand(n), ' ') == PsdWords(n)
  {
    var parts := PsdPieces(n);
    forall k | 0 <= k < |parts| ensures ' ' !in parts[k] {
      if k > 0 && n > 0 {
        NoSpaceInFormattedFile(k - 1);
      }
    }
    PsdCommandIsJoin(n);
    SplitJoinThen(parts, PsdTail, ' ');
  }

  /** Piece `j + 1` of the PSD command is canvas `j`. */
  lemma PsdPieceAt(n: nat, j: nat)
    requires j < n
    ensures j + 1 < |PsdPieces(n)| && PsdPieces(n)[j + 1] == FormattedFile(j)
  {
  }

  lemma NoSpaceInFormattedFile(i: nat)
    ensures ' ' !in FormattedFile(i)
  {
    var d := NatToString(i);
    assert FormattedFile(i) == "formatted_panel" + d + ".png";
  }

  /** Layer `j` of the PSD is the canvas round `j` wrote. */
  lemma PsdStacksCanvasesInOrder(n: nat, j: nat, w: int, h: int, x: int, y: int)
    requires j < n
    ensures var words := Split(PsdCommand(n), ' ');
      j + 1 < |words| && words[j + 1] == Render(DrawCanvas(w, h, x, y, j)).args[10]
  {
    PsdCommandWords(n);
    PsdPieceAt(n, j);
  }

  /** Geometry entries past the number of panel files are never read. */
  lemma {:induction false} ExtraGeometryIgnored(panels: seq<string>, size: seq<int>, geometry: seq<seq<int>>, extra: seq<seq<int>>, k: nat)
    requires k <= |panels| && AllReady(size, geometry, k)
    ensures AllReady(size, geometry + extra, k)
    ensures PanelSteps(panels, size, geometry + extra, k) == PanelSteps(panels, size, geometry, k)
  {
    forall i | 0 <= i < k
      ensures PanelReady(size, geometry + extra, i)
    {
      assert PanelReady(size, geometry, i);
      assert (geometry + extra)[i] == geometry[i];
    }
    if k > 0 {
      ExtraGeometryIgnored(panels, size, geometry, extra, k - 1);
      assert PanelReady(size, geometry, k - 1);
      assert Draw(size, geometry + extra, k - 1) == Draw(size, geometry, k - 1);
    }
  }

  /** Panel `i` can be drawn: the size has two entries and the geometry list has an
      entry for `i` with two coordinates. Otherwise indexing raises `IndexError`. */
  predicate PanelReady(size: seq<int>, geometry: seq<seq<int>>, i: nat)
  {
    |size| >= 2 && i < |geometry| && |geometry[i]| >= 2
  }

  /** Every one of the first `n` panels can be drawn. */
  predicate AllReady(size: seq<int>, geometry: seq<seq<int>>, n: nat)
  {
    forall i :: 0 <= i < n ==> PanelReady(size, geometry, i)
  }

  /** The commands of the first `k` rounds of the panel loop. */
  function PanelSteps(panels: seq<string>, size: seq<int>, geometry: seq<seq<int>>, k: nat): (runs: seq<Run>)
    requires k <= |panels| && AllReady(size, geometry, k)
    ensures |runs| == 2 * k
  {
    if k == 0 then []
    else
      assert PanelReady(size, geometry, k - 1);
      PanelSteps(panels, size, geometry, k - 1) + [CopyPanel(panels[k - 1], k - 1), Draw(size, geometry, k - 1)]
  }

  /** Round `i`'s canvas run: the page size and the `i`-th geometry entry. */
  function Draw(size: seq<int>, geometry: seq<seq<int>>, i: nat): Run
    requires |size| >= 2 && i < |geometry| && |geometry[i]| >= 2
  {
    DrawCanvas(size[0], size[1], geometry[i][0], geometry[i][1], i)
  }

  /** Round `i` of the loop copies the `i`-th sorted file and draws it with the
      `i`-th geometry entry: file `i` and geometry entry `i` are always paired. */
  lemma {:induction false} PanelStepAt(panels: seq<string>, size: seq<int>, geometry: seq<seq<int>>, k: nat, i: nat)
    requires k <= |panels| && AllReady(size, geometry, k) && i < k
    ensures PanelSteps(panels, size, geometry, k)[2 * i] == CopyPanel(panels[i], i)
    ensures PanelReady(size, geometry, i) && PanelSteps(panels, size, geometry, k)[2 * i + 1] ==
      DrawCanvas(size[0], size[1], geometry[i][0], geometry[i][1], i)
  {
    if i < k - 1 {
      PanelStepAt(panels, size, geometry, k - 1, i);
    }
  }

  /** The round at which the panel loop first fails to index. */
  function FirstUnready(size: seq<int>, geometry: seq<seq<int>>, n: nat): (k: nat)
    requires !AllReady(size, geometry, n)
    ensures k < n && !PanelReady(size, geometry, k) && AllReady(size, geometry, k)
  {
    if AllReady(size, geometry, n - 1) then n - 1 else FirstUnready(size, geometry, n - 1)
  }

  lemma FirstUnreadyIsFirst(size: seq<int>, geometry: seq<seq<int>>, n: nat, i: nat)
    requires i < n && AllReady(size, geometry, i) && !PanelReady(size, geometry, i)
    ensures !AllReady(size, geometry, n) && FirstUnready(size, geometry, n) == i
  {
  }

  /** The segmenter ran, its output decoded, and its panel directory exists. */
  predicate Segmented(w: World, loads: string -> Option<seq<SegRecord>>)
  {
    w.segmenter.returnCode == 0 && loads(w.segmenter.stdout).Some? && w.outputDirExists
  }

  /** The output has a first record and it carries both `size` and `panels`. */
  predicate HasFirstRecord(records: seq<SegRecord>)
  {
    |records| > 0 && records[0].size.Some? && records[0].panels.Some?
  }

  /** The listing filtered to regular files and sorted in place, as the handler
      prepares its panel list. */
  method SortedPanelFiles(listing: seq<DirEntry>) returns (panels: seq<string>)
    ensures panels == PanelOrder(listing)
    ensures Sorted(panels) && multiset(panels) == multiset(RegularFiles(listing))
  {
    var files := RegularFiles(listing);
    var sorter := new string[|files|](i requires 0 <= i < |files| => files[i]);
    assert sorter[..] == files;
    SortInPlace(sorter);
    panels := sorter[..];
  }

  /** The panel loop: for each panel in order, copy it out, then draw it on its
      canvas; an index that does not exist ends the loop with `IndexError` right
      after that round's copy command. */
  method DrawPanels(panels: seq<string>, size: seq<int>, geometry: seq<seq<int>>) returns (ok: bool, runs: seq<Run>)
    ensures ok == AllReady(size, geometry, |panels|)
    ensures ok ==> runs == PanelSteps(panels, size, geometry, |panels|)
    ensures !ok ==>
      var k := FirstUnready(size, geometry, |panels|);
      runs == PanelSteps(panels, size, geometry, k) + [CopyPanel(panels[k], k)]
  {
    runs := [];
    var i := 0;
    while i < |panels|
      invariant 0 <= i <= |panels|
      invariant AllReady(size, geometry, i)
      invariant runs == PanelSteps(panels, size, geometry, i)
    {
      var copy := CopyPanel(panels[i], i);
      if !PanelReady(size, geometry, i) {
        FirstUnreadyIsFirst(size, geometry, |panels|, i);
        return false, runs + [copy];
      }
      runs := runs + [copy, Draw(size, geometry, i)];
      i := i + 1;
    }
    ok := true;
  }

  /** `process_image`. `loads` is the JSON decoder applied to the segmenter's
      standard output (`None` when it raises `JSONDecodeError`). The exit codes of
      the per-panel commands are not inputs: the handler never looks at them. */
  method ProcessImage(w: World, loads: string -> Option<seq<SegRecord>>) returns (outcome: Outcome, issued: seq<Run>)
    ensures outcome.Failure? ==> outcome.error.status == 500
    ensures w.segmenter.returnCode != 0 ==>
      issued == [Segment] &&
      outcome == Failure(HttpError(500, ExceptionText(HttpError(500, "Error: " + w.segmenter.stderr))))
    ensures w.segmenter.returnCode == 0 && loads(w.segmenter.stdout).None? ==>
      issued == [Segment] && outcome == Failure(HttpError(500, JsonFailure))
    ensures w.segmenter.returnCode == 0 && loads(w.segmenter.stdout).Some? && !w.outputDirExists ==>
      issued == [Segment] &&
      outcome == Failure(HttpError(500, ExceptionText(HttpError(500, "Output directory does not exist"))))
    ensures Segmented(w, loads) && !HasFirstRecord(loads(w.segmenter.stdout).value) ==>
      var records := loads(w.segmenter.stdout).value;
      issued == [Segment] &&
      outcome == Failure(HttpError(500,
        if |records| == 0 then IndexErrorText
        else if records[0].size.None? then KeyErrorText("size")
        else KeyErrorText("panels")))
    ensures Segmented(w, loads) && HasFirstRecord(loads(w.segmenter.stdout).value) ==>
      var record := loads(w.segmenter.stdout).value[0];
      var panels := PanelOrder(w.listing);
      var size, geometry := record.size.value, record.panels.value;
      if AllReady(size, geometry, |panels|) then
        issued == [Segment] + PanelSteps(panels, size, geometry, |panels|) + [BuildPsd(|panels|)] &&
        outcome == if w.psd.returnCode != 0
                   then Failure(HttpError(500, ExceptionText(HttpError(500, "PSD Creation Error: " + w.psd.stderr))))
                   else Success(Response(SuccessMessage, size, panels))
      else
        var k := FirstUnready(size, geometry, |panels|);
        issued == [Segment] + PanelSteps(panels, size, geometry, k) + [CopyPanel(panels[k], k)] &&
        outcome == Failure(HttpError(500, IndexErrorText))
    ensures outcome.Success? ==>
      Sorted(outcome.response.panels) &&
      multiset(outcome.response.panels) == multiset(RegularFiles(w.listing))
  {
    issued := [Segment];
    if w.segmenter.returnCode != 0 {
      outcome := Failure(HttpError(500, ExceptionText(HttpError(500, "Error: " + w.segmenter.stderr))));
      return;
    }
    var decoded := loads(w.segmenter.stdout);
    if decoded.None? {
      outcome := Failure(HttpError(500, JsonFailure));
      return;
    }
    if !w.outputDirExists {
      outcome := Failure(HttpError(500, ExceptionText(HttpError(500, "Output directory does not exist"))));
      return;
    }

    var panels := SortedPanelFiles(w.listing);

    var records := decoded.value;
    if |records| == 0 {
      outcome := Failure(HttpError(500, IndexErrorText));
      return;
    }
    if records[0].size.None? {
      outcome := Failure(HttpError(500, KeyErrorText("size")));
      return;
    }
    if records[0].panels.None? {
      outcome := Failure(HttpError(500, KeyErrorText("panels")));
      return;
    }
    var size, geometry := records[0].size.value, records[0].panels.value;

    var drawn, steps := DrawPanels(panels, size, geometry);
    issued := issued + steps;
    if !drawn {
      outcome := Failure(HttpError(500, IndexErrorText));
      return;
    }

    issued := issued + [BuildPsd(|panels|)];
    if w.psd.returnCode != 0 {
      outcome := Failure(HttpError(500, ExceptionText(HttpError(500, "PSD Creation Error: " + w.psd.stderr))));
      return;
    }
    outcome := Success(Response(SuccessMessage, size, panels));
  }
}
