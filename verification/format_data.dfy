/** `format_data` of the tool-enabled agent
    (`use-cases/pydantic-ai/examples/tool_enabled_agent/agent.py`): raw text becomes a
    markdown table, a bulleted list or a JSON document.

    `json.loads` and `json.dumps(..., indent=2)` are the parameters `loads` and `dumps`,
    each of which may raise; the fallback object, a dict whose keys keep their insertion order, is handed to
    `dumpItems` as its ordered list of entries. */
module FormatData {
  import opened Wrappers
  import opened Text
  import opened Collections

  /** At most this many data rows are shown in a table. */
  const TableRowLimit: nat := 10

  /** What the outer handler puts in front of the text of an exception it catches. */
  const FormatErrorPrefix: string := "\U{683C}\U{5F0F}\U{5316}\U{9519}\U{8BEF}\U{FF1A}"

  /** What `json.loads` does with the text: a parsed value, the `JSONDecodeError` the
      inner handler catches, or any other exception, by its text. */
  datatype Loaded<J> = Parsed(value: J) | NotJson | LoadFailed(message: string)

  /** The marker in front of each list entry: a bullet and a space. */
  const Bullet: string := "\U{2022} "

  function Min(a: nat, b: nat): nat {
    if a <= b then a else b
  }

  /** The lines the formatter works on: the text without its surrounding whitespace,
      cut at every newline. */
  function InputLines(data: string): (lines: seq<string>)
    ensures |lines| >= 1
    ensures forall k :: 0 <= k < |lines| ==> !HasChar(lines[k], '\n')
  {
    Split(PyStrip(data), '\n')
  }

  // ---------------------------------------------------------------------------
  // Table
  // ---------------------------------------------------------------------------

  /** A cell between bars, as the header and each row are shown. */
  function Framed(cell: string): (r: string)
    ensures |r| == |cell| + 4
    ensures r[..2] == "| " && r[|r| - 2..] == " |" && r[2..|r| - 2] == cell
  {
    var r := "| " + cell + " |";
    assert r[2..|r| - 2] == cell;
    r
  }

  /** The rule under the header: exactly as wide as the framed header. */
  function Rule(header: string): (r: string)
    ensures |r| == |Framed(header)|
    ensures r[0] == '|' && r[|r| - 1] == '|'
    ensures forall i :: 0 < i < |r| - 1 ==> r[i] == '-'
  {
    "|" + Repeat('-', |header| + 2) + "|"
  }

  /** Each line followed by a newline, as the table text is accumulated. */
  function Lines(ls: seq<string>): string {
    if |ls| == 0 then "" else ls[0] + "\n" + Lines(ls[1..])
  }

  /** Text built line by line is the lines joined by newlines, with an empty last piece. */
  lemma {:induction false} LinesAsJoin(ls: seq<string>)
    ensures Lines(ls) == Join(ls + [""], "\n")
  {
    if |ls| > 0 {
      LinesAsJoin(ls[1..]);
      assert (ls + [""])[1..] == ls[1..] + [""];
    }
  }

  /** The lines of a table: the framed header, its rule, then the first ten rows. */
  function TableLines(header: string, rows: seq<string>): (r: seq<string>)
    ensures |r| == 2 + Min(|rows|, TableRowLimit)
    ensures r[0] == Framed(header) && r[1] == Rule(header)
    ensures forall k :: 0 <= k < |r| - 2 ==> r[k + 2] == Framed(rows[k])
  {
    var shown := rows[..Min(|rows|, TableRowLimit)];
    [Framed(header), Rule(header)] + seq(|shown|, k requires 0 <= k < |shown| => Framed(shown[k]))
  }

  function Table(header: string, rows: seq<string>): string {
    Lines(TableLines(header, rows))
  }

  lemma FramedKeepsLine(cell: string)
    requires !HasChar(cell, '\n')
    ensures !HasChar(Framed(cell), '\n')
  {
    var r := Framed(cell);
    forall i | 0 <= i < |r| ensures r[i] != '\n' {
      if 2 <= i < |r| - 2 {
        assert r[i] == r[2..|r| - 2][i - 2];
      } else if i < 2 {
        assert r[i] == r[..2][i];
      } else {
        assert r[i] == r[|r| - 2..][i - (|r| - 2)];
      }
    }
  }

  /** Cutting a table at its newlines gives back its header, rule and rows, each on a
      line of its own, followed by the empty piece after the last newline. */
  lemma TableReadsBack(header: string, rows: seq<string>)
    requires !HasChar(header, '\n')
    requires forall k :: 0 <= k < |rows| ==> !HasChar(rows[k], '\n')
    ensures Split(Table(header, rows), '\n') == TableLines(header, rows) + [""]
  {
    var ls := TableLines(header, rows);
    LinesAsJoin(ls);
    FramedKeepsLine(header);
    forall k | 0 <= k < |ls + [""]| ensures !HasChar((ls + [""])[k], '\n') {
      if k == 1 {
        assert !HasChar(Rule(header), '\n');
      } else if k >= 2 && k < |ls| {
        FramedKeepsLine(rows[k - 2]);
      }
    }
    SplitJoin(ls + [""], '\n');
  }

  // ---------------------------------------------------------------------------
  // List
  // ---------------------------------------------------------------------------

  /** A line the list keeps: one with something besides whitespace. */
  predicate NonBlank(l: string) {
    PyStrip(l) != ""
  }

  /** The entry of a kept line: the bullet sign followed by the stripped line. */
  function BulletLine(l: string): string {
    Bullet + PyStrip(l)
  }

  /** The entry `b` is the bullet of the line `l`: the line is not blank, and the entry
      is the bullet sign followed by the stripped line. */
  predicate BulletOf(l: string, b: string) {
    NonBlank(l) && b == BulletLine(l)
  }

  /** The positions of the lines that are not blank, in increasing order. */
  function NonBlankIndices(lines: seq<string>): (idx: seq<nat>)
    ensures forall k :: 0 <= k < |idx| ==> idx[k] < |lines| && NonBlank(lines[idx[k]])
    ensures forall k, m :: 0 <= k < m < |idx| ==> idx[k] < idx[m]
    ensures forall i :: 0 <= i < |lines| && NonBlank(lines[i]) ==> i in idx
  {
    IndicesWhere(lines, NonBlank)
  }

  /** One bulleted entry per line that is not blank, the line stripped, in order. */
  function Bullets(lines: seq<string>): (r: seq<string>)
    ensures |r| <= |lines|
    ensures forall b :: b in r <==> exists l :: l in lines && BulletOf(l, b)
    // entry k is the bullet of the k-th non-blank line, so every such line has its own
    // entry, however often its text recurs
    ensures |r| == |NonBlankIndices(lines)|
    ensures forall k :: 0 <= k < |r| ==> r[k] == BulletLine(lines[NonBlankIndices(lines)[k]])
  {
    FilterMapMembers(lines, NonBlank, BulletLine);
    FilterMap(lines, NonBlank, BulletLine)
  }

  /** The entries of two blocks of lines are the entries of the first, then those of the
      second. */
  lemma BulletsAppend(a: seq<string>, b: seq<string>)
    ensures Bullets(a + b) == Bullets(a) + Bullets(b)
  {
    FilterMapAppend(a, b, NonBlank, BulletLine);
  }

  /** A single line gives its bullet entry when it is not blank, and nothing when it is. */
  lemma BulletsOfOneLine(l: string)
    ensures Bullets([l]) == if NonBlank(l) then [BulletLine(l)] else []
  {
    assert [l][1..] == [];
  }

  /** A stripped line is part of the line, so it has no character the line lacks. */
  lemma StripKeepsLine(l: string, c: char)
    requires !HasChar(l, c)
    ensures !HasChar(PyStrip(l), c)
  {
    var s := TrimStart(l, IsPySpace);
    assert !HasChar(s, c) by {
      forall j | 0 <= j < |s| ensures s[j] != c {
        assert s[j] == l[|l| - |s| + j];
      }
    }
    var t := TrimEnd(s, IsPySpace);
    assert !HasChar(t, c) by {
      forall j | 0 <= j < |t| ensures t[j] != c {
        assert t[j] == s[j];
      }
    }
  }

  lemma BulletsKeepLines(lines: seq<string>)
    requires forall k :: 0 <= k < |lines| ==> !HasChar(lines[k], '\n')
    ensures forall k :: 0 <= k < |Bullets(lines)| ==> !HasChar(Bullets(lines)[k], '\n')
  {
    forall k | 0 <= k < |Bullets(lines)| ensures !HasChar(Bullets(lines)[k], '\n') {
      BulletKeepsLine(lines[NonBlankIndices(lines)[k]]);
    }
  }

  lemma BulletKeepsLine(l: string)
    requires !HasChar(l, '\n')
    ensures !HasChar(BulletLine(l), '\n')
  {
    StripKeepsLine(l, '\n');
    assert !HasChar(Bullet, '\n') by {
      assert Bullet[0] != '\n' && Bullet[1] != '\n';
    }
    ConcatLacksChar(Bullet, PyStrip(l), '\n');
  }

  /** The list text, cut at its newlines, gives back exactly the entries. */
  lemma ListReadsBack(lines: seq<string>)
    requires forall k :: 0 <= k < |lines| ==> !HasChar(lines[k], '\n')
    requires |Bullets(lines)| >= 1
    ensures Split(Join(Bullets(lines), "\n"), '\n') == Bullets(lines)
  {
    BulletsKeepLines(lines);
    SplitJoin(Bullets(lines), '\n');
  }

  // ---------------------------------------------------------------------------
  // JSON fallback
  // ---------------------------------------------------------------------------

  /** The key of the `i`-th line (counting from 0) in the fallback object. */
  function ItemKey(i: nat): (r: string)
    ensures StartsWith(r, "item_") && r[5..] == NatToString(i + 1)
  {
    var r := "item_" + NatToString(i + 1);
    assert r[..5] == "item_";
    r
  }

  /** The entries of the fallback object, in insertion order. */
  function Items(lines: seq<string>): (r: seq<(string, string)>)
    ensures |r| == |lines|
    ensures forall i :: 0 <= i < |r| ==> r[i].0 == ItemKey(i) && r[i].1 == PyStrip(lines[i])
    // different lines get different keys, so the object keeps every line
    ensures forall i, j :: 0 <= i < j < |r| ==> r[i].0 != r[j].0
  {
    seq(|lines|, i requires 0 <= i < |lines| => (ItemKey(i), PyStrip(lines[i])))
  }

  // ---------------------------------------------------------------------------
  // The tool
  // ---------------------------------------------------------------------------

  /** `format_data(data, format_type)`. A failure of `loads` other than a decoding error,
      or a failure of `dumps` (a `RecursionError` on deeply nested input, say), escapes
      the inner handler and is caught by the outer one, which returns its text after a
      fixed prefix. */
  function FormatData<J>(data: string, formatType: string, loads: string -> Loaded<J>,
                         dumps: J -> Result<string, string>,
                         dumpItems: seq<(string, string)> -> string): (r: string)
    ensures formatType == "table" && |InputLines(data)| > 1 ==>
              r == Table(InputLines(data)[0], InputLines(data)[1..])
    ensures formatType == "table" && |InputLines(data)| == 1 ==> r == data
    ensures formatType == "list" ==> r == Join(Bullets(InputLines(data)), "\n")
    ensures formatType == "json" && loads(data).Parsed? && dumps(loads(data).value).Success? ==>
              r == dumps(loads(data).value).value
    ensures formatType == "json" && loads(data).Parsed? && dumps(loads(data).value).Failure? ==>
              r == FormatErrorPrefix + dumps(loads(data).value).error
    ensures formatType == "json" && loads(data).NotJson? ==> r == dumpItems(Items(InputLines(data)))
    ensures formatType == "json" && loads(data).LoadFailed? ==> r == FormatErrorPrefix + loads(data).message
    ensures formatType !in {"table", "list", "json"} ==> r == data
  {
    var lines := InputLines(data);
    if formatType == "table" then
      if |lines| > 1 then Table(lines[0], lines[1..]) else data
    else if formatType == "list" then
      Join(Bullets(lines), "\n")
    else if formatType == "json" then
      match loads(data)
      case Parsed(parsed) =>
        (match dumps(parsed)
         case Success(text) => text
         case Failure(message) => FormatErrorPrefix + message)
      case NotJson => dumpItems(Items(lines))
      case LoadFailed(message) => FormatErrorPrefix + message
    else data
  }

  /** A table of several lines shows the framed header, a rule as wide, and the first
      ten data rows in order, each on a line of its own. */
  lemma TableShowsFirstRows<J>(data: string, loads: string -> Loaded<J>,
                               dumps: J -> Result<string, string>,
                               dumpItems: seq<(string, string)> -> string)
    requires |InputLines(data)| > 1
    ensures var out := Split(FormatData(data, "table", loads, dumps, dumpItems), '\n');
            var lines := InputLines(data);
            && |out| == 3 + Min(|lines| - 1, TableRowLimit)
            && out[0] == Framed(lines[0]) && out[1] == Rule(lines[0])
            && (forall k :: 2 <= k < |out| - 1 ==> out[k] == Framed(lines[k - 1]))
            && out[|out| - 1] == ""
  {
    var lines := InputLines(data);
    var rows := lines[1..];
    var tl := TableLines(lines[0], rows);
    assert FormatData(data, "table", loads, dumps, dumpItems) == Table(lines[0], rows);
    TableReadsBack(lines[0], rows);
    forall k | 2 <= k < |tl|
      ensures tl[k] == Framed(lines[k - 1])
    {
      assert tl[k] == Framed(rows[k - 2]) && rows[k - 2] == lines[k - 1];
    }
  }

  /** The lines of a non-empty list are the entries of `Bullets`: line k is the bullet and
      the k-th non-blank input line, stripped, so repeated lines are all kept, in order. */
  lemma ListShowsNonBlankLines<J>(data: string, loads: string -> Loaded<J>,
                                  dumps: J -> Result<string, string>,
                                  dumpItems: seq<(string, string)> -> string)
    requires |Bullets(InputLines(data))| >= 1
    ensures var out := Split(FormatData(data, "list", loads, dumps, dumpItems), '\n');
            var lines := InputLines(data);
            && out == Bullets(lines)
            && |out| == |NonBlankIndices(lines)|
            && (forall k :: 0 <= k < |out| ==> out[k] == BulletLine(lines[NonBlankIndices(lines)[k]]))
            && (forall b :: b in out <==> exists l :: l in lines && BulletOf(l, b))
  {
    assert FormatData(data, "list", loads, dumps, dumpItems) == Join(Bullets(InputLines(data)), "\n");
    ListReadsBack(InputLines(data));
  }
}
