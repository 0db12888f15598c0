/**
 The level-module text format (src/grid.rs, `parse_modules_file` and
 `text_to_row`). A file is read as a sequence of lines; every chunk of nine
 lines is one module: eight rows of tiles, top row first, then a line that
 trims to "-". In a row '#' is a Solid tile at full health and ' ' is Air;
 trailing whitespace is ignored and missing positions are Air. A final
 chunk of one blank line ends the file.

 The source reports an unknown character through its error result and
 aborts (a failed assertion or an out-of-range index) on every other
 malformed input; here all of them are error values, told apart by kind.
 */
module ModuleText {
  import opened Grids

  datatype Result<T, E> = Ok(value: T) | Err(error: E)

  /** Unicode White_Space, the set the source's trimming functions remove. */
  predicate IsWhitespace(c: char) {
    var n := c as int;
    || (9 <= n <= 13) || n == 32 || n == 0x85 || n == 0xA0 || n == 0x1680
    || (0x2000 <= n <= 0x200A) || n == 0x2028 || n == 0x2029 || n == 0x202F
    || n == 0x205F || n == 0x3000
  }

  /** `s` without its trailing whitespace. */
  function TrimEnd(s: string): (r: string)
    ensures |r| <= |s| && r == s[..|r|]
    ensures forall i :: |r| <= i < |s| ==> IsWhitespace(s[i])
    ensures |r| == 0 || !IsWhitespace(r[|r| - 1])
    decreases |s|
  {
    if |s| > 0 && IsWhitespace(s[|s| - 1]) then TrimEnd(s[..|s| - 1]) else s
  }

  /** `s` without its leading whitespace. */
  function TrimStart(s: string): (r: string)
    ensures |r| <= |s| && r == s[|s| - |r|..]
    ensures forall i :: 0 <= i < |s| - |r| ==> IsWhitespace(s[i])
    ensures |r| == 0 || !IsWhitespace(r[0])
    decreases |s|
  {
    if |s| > 0 && IsWhitespace(s[0]) then TrimStart(s[1..]) else s
  }

  /** `s` without whitespace at either end. */
  function Trim(s: string): string {
    TrimStart(TrimEnd(s))
  }

  /** The two characters a row may contain. */
  predicate Known(c: char) {
    c == '#' || c == ' '
  }

  function CharTile(c: char): Tile
    requires Known(c)
  {
    if c == '#' then Solid(TILE_MAX_HEALTH) else Air
  }

  datatype RowError =
    | UnknownCharacter(ch: char, position: nat)   // the error the source returns
    | RowOverflow(position: nat)                  // a 33rd tile: the source indexes out of range and aborts

  /**
   The row scan from position `i` on, `acc` holding the tiles placed so far.
   Characters are handled in order: a known character at position 32 or
   beyond overflows the row, an unknown one is reported with its position.
   */
  function ScanRow(cs: string, i: nat, acc: Row): (r: Result<Row, RowError>)
    requires i <= |cs| && i <= GRID_WIDTH && |acc| == GRID_WIDTH
    ensures r.Ok? <==> |cs| <= GRID_WIDTH && forall k :: i <= k < |cs| ==> Known(cs[k])
    ensures r.Ok? ==> |r.value| == GRID_WIDTH
    ensures r.Ok? ==> forall k :: 0 <= k < GRID_WIDTH ==>
              r.value[k] == (if i <= k < |cs| then CharTile(cs[k]) else acc[k])
    ensures r.Err? && r.error.UnknownCharacter? ==>
              var p := r.error.position;
              && i <= p < |cs| && p <= GRID_WIDTH && cs[p] == r.error.ch && !Known(cs[p])
              && forall k :: i <= k < p ==> Known(cs[k])
    ensures r.Err? && r.error.RowOverflow? ==>
              && r.error.position == GRID_WIDTH < |cs|
              && forall k :: i <= k <= GRID_WIDTH ==> Known(cs[k])
    decreases |cs| - i
  {
    if i == |cs| then
      Ok(acc)
    else if !Known(cs[i]) then
      Err(UnknownCharacter(cs[i], i))
    else if i == GRID_WIDTH then
      Err(RowOverflow(i))
    else
      ScanRow(cs, i + 1, acc[i := CharTile(cs[i])])
  }

  function AirRow(): (row: Row)
    ensures |row| == GRID_WIDTH && forall k :: 0 <= k < |row| ==> row[k] == Air
  {
    seq(GRID_WIDTH, _ => Air)
  }

  /**
   text_to_row: one line of the file as a row of 32 tiles. After the
   trailing whitespace is dropped, position k holds the tile of character k,
   and positions past the end of the text are Air.
   */
  function TextToRow(text: string): (r: Result<Row, RowError>)
    ensures var t := TrimEnd(text);
            r.Ok? <==> |t| <= GRID_WIDTH && forall k :: 0 <= k < |t| ==> Known(t[k])
    ensures var t := TrimEnd(text);
            r.Ok? ==> (|r.value| == GRID_WIDTH &&
              forall k :: 0 <= k < GRID_WIDTH ==> r.value[k] == (if k < |t| then CharTile(t[k]) else Air))
    ensures var t := TrimEnd(text);
            r.Err? && r.error.UnknownCharacter? ==>
              var p := r.error.position;
              && p < |t| && p <= GRID_WIDTH && t[p] == r.error.ch && !Known(t[p])
              && forall k :: 0 <= k < p ==> Known(t[k])
    ensures var t := TrimEnd(text);
            r.Err? && r.error.RowOverflow? ==>
              r.error.position == GRID_WIDTH < |t| && forall k :: 0 <= k <= GRID_WIDTH ==> Known(t[k])
  {
    ScanRow(TrimEnd(text), 0, AirRow())
  }

  /** A row the text format can express: every tile Air or a full-health Solid. */
  predicate Printable(row: Row) {
    forall k :: 0 <= k < |row| ==> row[k] == Air || row[k] == Solid(TILE_MAX_HEALTH)
  }

  /** The text of a row: '#' for a Solid tile, ' ' for Air. */
  function RowToText(row: Row): (s: string)
    ensures |s| == |row|
    ensures forall k :: 0 <= k < |s| ==> Known(s[k])
  {
    seq(|row|, k requires 0 <= k < |row| => if row[k].Solid? then '#' else ' ')
  }

  /** Printing a printable row and parsing the text gives the row back. */
  lemma TextToRowRoundTrip(row: Row)
    requires |row| == GRID_WIDTH && Printable(row)
    ensures TextToRow(RowToText(row)) == Ok(row)
  {
    var s := RowToText(row);
    var t := TrimEnd(s);
    assert forall k :: 0 <= k < |t| ==> t[k] == s[k];
    var r := TextToRow(s);
    assert r.Ok?;
    forall k | 0 <= k < GRID_WIDTH
      ensures r.value[k] == row[k]
    {
      if k >= |t| {
        assert IsWhitespace(s[k]);
      }
    }
    assert r.value == row;
  }

  datatype LoadError =
    | CouldNotParse(row: string, line: nat, reason: RowError)   // a row of a module failed to parse
    | BadChunkLength(len: nat)                                  // a final chunk of 2 to 8 lines
    | MissingSeparator(found: string)                           // the ninth line of a chunk is not "-"
    | NonBlankLastLine(found: string)                           // a final one-line chunk that is not blank

  function AirModule(): (m: Module)
    ensures WellShaped(m)
  {
    seq(GRID_HEIGHT, _ => AirRow())
  }

  /**
   The eight row lines of a chunk from line `i` on, top row first: line i
   becomes row 7 - i of the module, so the bottom row comes last in the file.
   The first row that fails to parse is reported with its line in the chunk.
   */
  function ParseRows(chunk: seq<string>, i: nat, acc: Module): (r: Result<Module, LoadError>)
    requires GRID_HEIGHT <= |chunk| && i <= GRID_HEIGHT && WellShaped(acc)
    ensures r.Ok? <==> forall k :: i <= k < GRID_HEIGHT ==> TextToRow(chunk[k]).Ok?
    ensures r.Ok? ==> WellShaped(r.value)
    ensures r.Ok? ==> forall k :: i <= k < GRID_HEIGHT ==> TextToRow(chunk[k]) == Ok(r.value[GRID_HEIGHT - 1 - k])
    ensures r.Ok? ==> forall q :: GRID_HEIGHT - i <= q < GRID_HEIGHT ==> r.value[q] == acc[q]
    ensures r.Err? ==>
              && r.error.CouldNotParse? && i <= r.error.line < GRID_HEIGHT
              && r.error.row == chunk[r.error.line]
              && TextToRow(chunk[r.error.line]) == Err(r.error.reason)
              && forall k :: i <= k < r.error.line ==> TextToRow(chunk[k]).Ok?
    decreases GRID_HEIGHT - i
  {
    if i == GRID_HEIGHT then
      Ok(acc)
    else
      match TextToRow(chunk[i])
      case Err(e) => Err(CouldNotParse(chunk[i], i, e))
      case Ok(row) => ParseRows(chunk, i + 1, acc[GRID_HEIGHT - 1 - i := row])
  }

  /** The nine lines of chunk `k`. */
  function Chunk(lines: seq<string>, k: nat): (c: seq<string>)
    requires 9 * k + 9 <= |lines|
    ensures |c| == 9
  {
    lines[9 * k..9 * k + 9]
  }

  /** A chunk that parses: every row line parses and the ninth line trims to "-". */
  predicate ChunkOk(c: seq<string>) {
    |c| == 9 && Trim(c[8]) == "-" && forall i :: 0 <= i < GRID_HEIGHT ==> TextToRow(c[i]).Ok?
  }

  /** Module `m` is what chunk `c` describes, rows reversed. */
  predicate Describes(c: seq<string>, m: Module)
    requires |c| == 9
  {
    WellShaped(m) && forall i :: 0 <= i < GRID_HEIGHT ==> TextToRow(c[i]) == Ok(m[GRID_HEIGHT - 1 - i])
  }

  /**
   A file the loader accepts: whole chunks that all parse, optionally
   followed by one blank line.
   */
  predicate Loadable(lines: seq<string>) {
    WholeChunks(lines) && EveryChunk(lines, ChunkOk)
  }

  /** The lines are whole chunks, optionally followed by one blank line. */
  predicate WholeChunks(lines: seq<string>) {
    |lines| % 9 == 0 || (|lines| % 9 == 1 && Trim(lines[|lines| - 1]) == "")
  }

  /** Every whole chunk of `lines` satisfies `ok`. */
  predicate EveryChunk(lines: seq<string>, ok: seq<string> -> bool) {
    forall k :: 0 <= k < |lines| / 9 ==> ok(Chunk(lines, k))
  }

  /** Dropping one chunk of lines keeps the remainder and lowers the quotient by one. */
  lemma DropChunkArith(n: int)
    requires n >= 9
    ensures (n - 9) / 9 == n / 9 - 1 && (n - 9) % 9 == n % 9
  {
    var q, m := n / 9, n % 9;
    assert n - 9 == 9 * (q - 1) + m;
  }

  /** The chunks after the first are the chunks of the remaining lines. */
  lemma ChunkShift(lines: seq<string>)
    requires |lines| >= 9
    ensures |lines[9..]| / 9 == |lines| / 9 - 1 && |lines[9..]| % 9 == |lines| % 9
    ensures forall k :: 0 <= k < |lines[9..]| / 9 ==> Chunk(lines[9..], k) == Chunk(lines, k + 1)
  {
    var rest := lines[9..];
    DropChunkArith(|lines|);
    forall k | 0 <= k < |rest| / 9
      ensures Chunk(rest, k) == Chunk(lines, k + 1)
    {
      assert 9 * k + 9 <= |rest|;
    }
  }

  /** A property holds of every chunk iff it holds of the first and of every chunk after it. */
  lemma EveryChunkStep(lines: seq<string>, ok: seq<string> -> bool)
    requires |lines| >= 9
    ensures EveryChunk(lines, ok) <==> ok(Chunk(lines, 0)) && EveryChunk(lines[9..], ok)
  {
    var rest := lines[9..];
    ChunkShift(lines);
    if EveryChunk(lines, ok) {
      forall k | 0 <= k < |rest| / 9
        ensures ok(Chunk(rest, k))
      {
        assert ok(Chunk(lines, k + 1));
      }
    }
    if ok(Chunk(lines, 0)) && EveryChunk(rest, ok) {
      forall k | 0 <= k < |lines| / 9
        ensures ok(Chunk(lines, k))
      {
        if k > 0 {
          assert ok(Chunk(rest, k - 1));
        }
      }
    }
  }

  /** Dropping the first chunk keeps the shape of the file's end. */
  lemma WholeChunksStep(lines: seq<string>)
    requires |lines| >= 9
    ensures WholeChunks(lines) <==> WholeChunks(lines[9..])
  {
    var rest := lines[9..];
    DropChunk(lines);
    if |lines| % 9 == 1 {
      var a, b := lines[|lines| - 1], rest[|rest| - 1];
      assert a == b;
      assert WholeChunks(lines) <==> Trim(a) == "";
      assert WholeChunks(rest) <==> Trim(b) == "";
    }
  }

  /** Dropping nine lines keeps the remainder modulo nine and the last line. */
  lemma DropChunk<T>(lines: seq<T>)
    requires |lines| >= 9
    ensures |lines[9..]| % 9 == |lines| % 9 && |lines[9..]| / 9 == |lines| / 9 - 1
    ensures |lines[9..]| > 0 ==> lines[9..][|lines[9..]| - 1] == lines[|lines| - 1]
  {
    DropChunkArith(|lines|);
  }

  /**
   The work on one nine-line chunk: the separator line is checked first,
   then the eight row lines are parsed.
   */
  function ParseChunk(c: seq<string>): (r: Result<Module, LoadError>)
    requires |c| == 9
    ensures r.Ok? <==> ChunkOk(c)
    ensures r.Ok? ==> Describes(c, r.value)
    ensures Trim(c[8]) != "-" ==> r == Err(MissingSeparator(c[8]))
    ensures Trim(c[8]) == "-" && r.Err? ==>
              && r.error.CouldNotParse? && r.error.line < GRID_HEIGHT && r.error.row == c[r.error.line]
              && TextToRow(c[r.error.line]) == Err(r.error.reason)
              && forall k :: 0 <= k < r.error.line ==> TextToRow(c[k]).Ok?
  {
    if Trim(c[8]) != "-" then
      Err(MissingSeparator(c[8]))
    else
      var r := ParseRows(c, 0, AirModule());
      if r.Ok? then
        assert forall i :: 0 <= i < GRID_HEIGHT ==> TextToRow(c[i]) == Ok(r.value[GRID_HEIGHT - 1 - i]);
        r
      else
        r
  }

  /** A parser for nine-line chunks. */
  type ChunkParser = seq<string> --> Result<Module, LoadError>

  ghost predicate ParsesChunks(parse: ChunkParser) {
    forall c :: |c| == 9 ==> parse.requires(c)
  }

  /**
   The chunk loop of parse_modules_file with the chunk work `parse`: a final
   chunk of one line must be blank and ends the file, any other chunk must
   have nine lines, and the first failure ends the load.
   */
  function LoadChunks(lines: seq<string>, parse: ChunkParser): (r: Result<seq<Module>, LoadError>)
    requires ParsesChunks(parse)
    ensures r.Ok? ==> |r.value| == |lines| / 9
    decreases |lines|
  {
    if |lines| == 0 then
      Ok([])
    else if |lines| == 1 then
      if Trim(lines[0]) == "" then Ok([]) else Err(NonBlankLastLine(lines[0]))
    else if |lines| < 9 then
      Err(BadChunkLength(|lines|))
    else
      match parse(lines[..9])
      case Err(e) => Err(e)
      case Ok(m) =>
        DropChunkArith(|lines|);
        match LoadChunks(lines[9..], parse)
        case Err(e) => Err(e)
        case Ok(ms) => Ok([m] + ms)
  }

  /** The loop accepts exactly the files of whole chunks on which `parse` succeeds. */
  lemma {:induction false} LoadChunksAccepts(lines: seq<string>, parse: ChunkParser, ok: seq<string> -> bool)
    requires ParsesChunks(parse)
    requires forall c :: |c| == 9 ==> (parse(c).Ok? <==> ok(c))
    ensures LoadChunks(lines, parse).Ok? <==> WholeChunks(lines) && EveryChunk(lines, ok)
    decreases |lines|
  {
    if |lines| < 9 {
      LoadChunksShort(lines, parse, ok);
    } else {
      var rest := lines[9..];
      assert lines[..9] == Chunk(lines, 0);
      WholeChunksStep(lines);
      EveryChunkStep(lines, ok);
      LoadChunksAccepts(rest, parse, ok);
      assert LoadChunks(lines, parse).Ok? <==> parse(lines[..9]).Ok? && LoadChunks(rest, parse).Ok?;
    }
  }

  /** A file shorter than a chunk loads iff it is empty or one blank line. */
  lemma LoadChunksShort(lines: seq<string>, parse: ChunkParser, ok: seq<string> -> bool)
    requires ParsesChunks(parse) && |lines| < 9
    ensures LoadChunks(lines, parse).Ok? <==> WholeChunks(lines) && EveryChunk(lines, ok)
  {
    assert |lines| / 9 == 0 && |lines| % 9 == |lines|;
    assert EveryChunk(lines, ok);
  }

  /** Every module the loop returns is what `parse` makes of its chunk. */
  lemma {:induction false} LoadChunksEach(lines: seq<string>, parse: ChunkParser)
    requires ParsesChunks(parse) && LoadChunks(lines, parse).Ok?
    ensures var ms := LoadChunks(lines, parse).value;
            forall k :: 0 <= k < |ms| ==> parse(Chunk(lines, k)) == Ok(ms[k])
    decreases |lines|
  {
    if |lines| >= 9 {
      var ms := LoadChunks(lines, parse).value;
      var rest := lines[9..];
      var first, others := parse(lines[..9]), LoadChunks(rest, parse);
      assert first.Ok? && others.Ok? && ms == [first.value] + others.value;
      LoadChunksEach(rest, parse);
      ChunkShift(lines);
      assert lines[..9] == Chunk(lines, 0);
      forall k | 0 <= k < |ms|
        ensures parse(Chunk(lines, k)) == Ok(ms[k])
      {
        if k > 0 {
          assert ms[k] == others.value[k - 1];
          assert Chunk(rest, k - 1) == Chunk(lines, k);
        }
      }
    }
  }

  /**
   A chunk length error is only ever reported for a final chunk of two to
   eight lines, with that length, when `parse` itself never reports one.
   */
  lemma {:induction false} LoadChunksBadLength(lines: seq<string>, parse: ChunkParser)
    requires ParsesChunks(parse)
    requires forall c :: |c| == 9 ==> !(parse(c).Err? && parse(c).error.BadChunkLength?)
    ensures var r := LoadChunks(lines, parse);
            r.Err? && r.error.BadChunkLength? ==> r.error.len == |lines| % 9 && 2 <= r.error.len
    decreases |lines|
  {
    if |lines| >= 9 {
      DropChunkArith(|lines|);
      LoadChunksBadLength(lines[9..], parse);
    }
  }

  /** One chunk that parses in front of lines that load adds its module in front. */
  lemma LoadChunksCons(lines: seq<string>, parse: ChunkParser, m: Module, ms: seq<Module>)
    requires ParsesChunks(parse) && |lines| >= 9
    requires parse(lines[..9]) == Ok(m)
    requires LoadChunks(lines[9..], parse) == Ok(ms)
    ensures LoadChunks(lines, parse) == Ok([m] + ms)
  {
  }

  /** parse_modules_file over the lines of the file. */
  function ParseModules(lines: seq<string>): (r: Result<seq<Module>, LoadError>)
    ensures r.Ok? ==> |r.value| == |lines| / 9
  {
    LoadChunks(lines, ParseChunk)
  }

  /** The loader accepts exactly the loadable files. */
  lemma ParseModulesAccepts(lines: seq<string>)
    ensures ParseModules(lines).Ok? <==> Loadable(lines)
  {
    LoadChunksAccepts(lines, ParseChunk, ChunkOk);
  }

  /** Every module the loader returns is the one its chunk of the file describes. */
  lemma ParseModulesDescribes(lines: seq<string>)
    requires ParseModules(lines).Ok?
    ensures var ms := ParseModules(lines).value;
            forall k :: 0 <= k < |ms| ==> Describes(Chunk(lines, k), ms[k])
  {
    LoadChunksEach(lines, ParseChunk);
  }

  /** A chunk length error names the length of a short final chunk. */
  lemma ParseModulesBadLength(lines: seq<string>)
    ensures var r := ParseModules(lines);
            r.Err? && r.error.BadChunkLength? ==> r.error.len == |lines| % 9 && 2 <= r.error.len
  {
    LoadChunksBadLength(lines, ParseChunk);
  }

  /** The nine lines describing module `m`: rows top to bottom, then the separator. */
  function ModuleToText(m: Module): (c: seq<string>)
    requires WellShaped(m)
    ensures |c| == 9
  {
    seq(GRID_HEIGHT, i requires 0 <= i < GRID_HEIGHT => RowToText(m[GRID_HEIGHT - 1 - i])) + ["-"]
  }

  function ModulesToText(ms: seq<Module>): (lines: seq<string>)
    requires forall k :: 0 <= k < |ms| ==> WellShaped(ms[k])
    ensures |lines| == 9 * |ms|
  {
    if |ms| == 0 then [] else ModuleToText(ms[0]) + ModulesToText(ms[1..])
  }

  predicate PrintableModule(m: Module) {
    WellShaped(m) && forall j :: 0 <= j < |m| ==> Printable(m[j])
  }

  /** Parsing the text of a printable module gives the module back. */
  lemma ParseRowsRoundTrip(m: Module)
    requires PrintableModule(m)
    ensures ParseRows(ModuleToText(m), 0, AirModule()) == Ok(m)
  {
    var c := ModuleToText(m);
    forall k | 0 <= k < GRID_HEIGHT
      ensures TextToRow(c[k]) == Ok(m[GRID_HEIGHT - 1 - k])
    {
      TextToRowRoundTrip(m[GRID_HEIGHT - 1 - k]);
    }
    var r := ParseRows(c, 0, AirModule());
    forall q | 0 <= q < GRID_HEIGHT
      ensures r.value[q] == m[q]
    {
      assert TextToRow(c[GRID_HEIGHT - 1 - q]) == Ok(r.value[q]);
    }
    assert r.value == m;
  }

  /** Parsing the chunk of a printable module gives the module back. */
  lemma ParseChunkRoundTrip(m: Module)
    requires PrintableModule(m)
    ensures ParseChunk(ModuleToText(m)) == Ok(m)
  {
    var c := ModuleToText(m);
    assert Trim(c[8]) == "-" by {
      assert c[8] == "-" && !IsWhitespace('-');
    }
    ParseRowsRoundTrip(m);
  }

  /** The only lines a file may end with after its chunks load as nothing. */
  lemma ParseModulesEnd(tail: seq<string>)
    requires tail == [] || tail == [""]
    ensures ParseModules(tail) == Ok([])
  {
    assert Trim("") == "";
  }

  /** The text of a non-empty module list is the first module's chunk followed by the rest. */
  lemma ModulesToTextCons(ms: seq<Module>, tail: seq<string>)
    requires |ms| > 0 && forall k :: 0 <= k < |ms| ==> WellShaped(ms[k])
    ensures (ModulesToText(ms) + tail)[..9] == ModuleToText(ms[0])
    ensures (ModulesToText(ms) + tail)[9..] == ModulesToText(ms[1..]) + tail
  {
    SplitChunk(ModuleToText(ms[0]), ModulesToText(ms[1..]), tail);
  }

  lemma SplitChunk<T>(a: seq<T>, b: seq<T>, c: seq<T>)
    requires |a| == 9
    ensures (a + b + c)[..9] == a && (a + b + c)[9..] == b + c
  {
  }

  /** The inductive step of the round trip: the first module's chunk loads as that module. */
  lemma RoundTripStep(ms: seq<Module>, tail: seq<string>)
    requires |ms| > 0 && PrintableModule(ms[0])
    requires forall k :: 0 <= k < |ms| ==> WellShaped(ms[k])
    requires LoadChunks(ModulesToText(ms[1..]) + tail, ParseChunk) == Ok(ms[1..])
    ensures LoadChunks(ModulesToText(ms) + tail, ParseChunk) == Ok(ms)
  {
    FirstChunkLoads(ms, tail);
    LoadChunksCons(ModulesToText(ms) + tail, ParseChunk, ms[0], ms[1..]);
  }

  /** The first chunk of the text of a module list parses as the first module. */
  lemma FirstChunkLoads(ms: seq<Module>, tail: seq<string>)
    requires |ms| > 0 && PrintableModule(ms[0])
    requires forall k :: 0 <= k < |ms| ==> WellShaped(ms[k])
    ensures ParseChunk((ModulesToText(ms) + tail)[..9]) == Ok(ms[0])
    ensures (ModulesToText(ms) + tail)[9..] == ModulesToText(ms[1..]) + tail
    ensures [ms[0]] + ms[1..] == ms
  {
    ModulesToTextCons(ms, tail);
    ParseChunkRoundTrip(ms[0]);
    HeadTail(ms);
  }

  lemma HeadTail<T>(s: seq<T>)
    requires |s| > 0
    ensures [s[0]] + s[1..] == s
  {
  }

  /**
   Printing printable modules and loading the text gives the same modules,
   whether or not the file ends with a blank line.
   */
  lemma {:induction false} ParseModulesRoundTrip(ms: seq<Module>, tail: seq<string>)
    requires forall k :: 0 <= k < |ms| ==> WellShaped(ms[k]) && PrintableModule(ms[k])
    requires tail == [] || tail == [""]
    ensures ParseModules(ModulesToText(ms) + tail) == Ok(ms)
    decreases |ms|
  {
    if |ms| == 0 {
      assert ModulesToText(ms) + tail == tail;
      ParseModulesEnd(tail);
    } else {
      ParseModulesRoundTrip(ms[1..], tail);
      RoundTripStep(ms, tail);
    }
  }
}
