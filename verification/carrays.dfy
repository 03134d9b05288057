/** The text the exporter writes for the weight arrays of the C++
    header, and the parameter and byte counts it reports.

    Number formatting (`:.6f`) is not modelled: it is the parameter
    `fmt`, and every literal is `fmt(x)` followed by the `f` suffix of a C
    float constant. Line counts and separator counts hold for any `fmt`
    whose output contains no newline (resp. no comma), as a fixed-point
    rendering of a real never does. */
module CArrays {
  import opened Autoencoder

  /** `sep.join(items)`. */
  function Join(items: seq<string>, sep: string): string
  {
    if |items| == 0 then ""
    else if |items| == 1 then items[0]
    else Join(items[..|items| - 1], sep) + sep + items[|items| - 1]
  }

  /** One C float literal. */
  function Literal(x: real, fmt: real -> string): string
  {
    fmt(x) + "f"
  }

  function Literals(v: seq<real>, fmt: real -> string): (r: seq<string>)
    ensures |r| == |v|
  {
    seq(|v|, j requires 0 <= j < |v| => Literal(v[j], fmt))
  }

  /** The entries of one row or one vector, comma separated. */
  function Entries(v: seq<real>, fmt: real -> string): string
  {
    Join(Literals(v, fmt), ", ")
  }

  /** Line i of a matrix initializer: the row in braces, a comma after
      every row but the last, then a newline. */
  function RowLine(m: seq<seq<real>>, i: nat, fmt: real -> string): string
    requires i < |m|
  {
    "  {" + Entries(m[i], fmt) + "}" + (if i < |m| - 1 then "," else "") + "\n"
  }

  /** The first k lines of a matrix initializer. */
  function MatrixLines(m: seq<seq<real>>, k: nat, fmt: real -> string): string
    requires k <= |m|
  {
    if k == 0 then "" else MatrixLines(m, k - 1, fmt) + RowLine(m, k - 1, fmt)
  }

  /** The rows of a matrix initializer, between `= {` and `};`. */
  function MatrixBody(m: seq<seq<real>>, fmt: real -> string): string
  {
    MatrixLines(m, |m|, fmt)
  }

  /** A two-dimensional array declaration. */
  function MatrixBlock(decl: string, m: seq<seq<real>>, fmt: real -> string): string
  {
    decl + " = {\n" + MatrixBody(m, fmt) + "};\n\n"
  }

  /** A one-dimensional array declaration: all entries on one line. */
  function VectorBlock(decl: string, v: seq<real>, fmt: real -> string): string
  {
    decl + " = {\n  " + Entries(v, fmt) + "\n};\n\n"
  }

  /** The exporter's inner loop: each literal followed by `, ` unless it
      is the last of its row. */
  method EmitRow(row: seq<real>, cols: nat, fmt: real -> string) returns (text: string)
    requires |row| == cols
    ensures text == Entries(row, fmt)
  {
    var items := Literals(row, fmt);
    text := "";
    for j := 0 to cols
      invariant j == 0 ==> text == ""
      invariant 0 < j < cols ==> text == Join(items[..j], ", ") + ", "
      invariant 0 < j == cols ==> text == Join(items[..j], ", ")
    {
      assert items[..j + 1][..j] == items[..j];
      text := text + Literal(row[j], fmt);
      if j < cols - 1 {
        text := text + ", ";
      }
    }
    assert items[..cols] == items;
  }

  /** The exporter's outer loop: open the row, write its entries, close
      it, add a comma unless it is the last row, end the line. Each line is
      built before it is appended; the text is the same. */
  method EmitMatrix(m: seq<seq<real>>, cols: nat, fmt: real -> string) returns (text: string)
    requires IsMatrix(m, |m|, cols)
    ensures text == MatrixBody(m, fmt)
  {
    text := "";
    for i := 0 to |m|
      invariant text == MatrixLines(m, i, fmt)
    {
      var entries := EmitRow(m[i], cols, fmt);
      var line := "  {" + entries + "}";
      if i < |m| - 1 {
        line := line + ",";
      }
      line := line + "\n";
      assert line == RowLine(m, i, fmt);
      text := text + line;
    }
  }

  // ---------------------------------------------------------------------
  // Counting characters of the generated text

  function Occurrences(s: string, c: char): nat
  {
    if |s| == 0 then 0
    else Occurrences(s[..|s| - 1], c) + (if s[|s| - 1] == c then 1 else 0)
  }

  lemma {:induction false} OccurrencesAppend(a: string, b: string, c: char)
    ensures Occurrences(a + b, c) == Occurrences(a, c) + Occurrences(b, c)
  {
    if |b| > 0 {
      assert (a + b)[..|a + b| - 1] == a + b[..|b| - 1];
      OccurrencesAppend(a, b[..|b| - 1], c);
    } else {
      assert a + b == a;
    }
  }

  /** A join of k items free of c holds k - 1 copies of the separator's
      occurrences of c. */
  lemma {:induction false} OccurrencesJoin(items: seq<string>, sep: string, c: char)
    requires |items| > 0
    requires forall i :: 0 <= i < |items| ==> Occurrences(items[i], c) == 0
    ensures Occurrences(Join(items, sep), c) == (|items| - 1) * Occurrences(sep, c)
  {
    if |items| > 1 {
      var p := items[..|items| - 1];
      OccurrencesJoin(p, sep, c);
      OccurrencesAppend(Join(p, sep), sep, c);
      OccurrencesAppend(Join(p, sep) + sep, items[|items| - 1], c);
    }
  }

  /** Character c never occurs in a formatted number. */
  ghost predicate FormatAvoids(fmt: real -> string, c: char)
  {
    c != 'f' && forall x :: Occurrences(fmt(x), c) == 0
  }

  lemma LiteralAvoids(x: real, fmt: real -> string, c: char)
    requires FormatAvoids(fmt, c)
    ensures Occurrences(Literal(x, fmt), c) == 0
  {
    OccurrencesAppend(fmt(x), "f", c);
    assert "f"[..0] == "";
  }

  lemma {:induction false} OccurrencesAvoid(s: string, c: char)
    requires forall i :: 0 <= i < |s| ==> s[i] != c
    ensures Occurrences(s, c) == 0
  {
    if |s| > 0 {
      OccurrencesAvoid(s[..|s| - 1], c);
    }
  }

  lemma OccurrencesOfChar(x: char, c: char)
    ensures Occurrences([x], c) == (if x == c then 1 else 0)
  {
    assert [x][..0] == [];
  }

  /** The row separator `, ` holds one comma and nothing else of note. */
  lemma SeparatorOccurrences(c: char)
    ensures Occurrences(", ", c) == (if c == ',' || c == ' ' then 1 else 0)
  {
    assert ", " == [','] + [' '];
    OccurrencesAppend([','], [' '], c);
    OccurrencesOfChar(',', c);
    OccurrencesOfChar(' ', c);
  }

  lemma EntriesAvoid(v: seq<real>, fmt: real -> string, c: char)
    requires FormatAvoids(fmt, c) && c != ',' && c != ' '
    ensures Occurrences(Entries(v, fmt), c) == 0
  {
    var items := Literals(v, fmt);
    forall i | 0 <= i < |items|
      ensures Occurrences(items[i], c) == 0
    {
      LiteralAvoids(v[i], fmt, c);
    }
    if |items| > 0 {
      OccurrencesJoin(items, ", ", c);
      SeparatorOccurrences(c);
    }
  }

  /** A row of n entries holds n - 1 commas. */
  lemma EntriesCommas(v: seq<real>, fmt: real -> string)
    requires |v| > 0 && FormatAvoids(fmt, ',')
    ensures Occurrences(Entries(v, fmt), ',') == |v| - 1
  {
    var items := Literals(v, fmt);
    forall t | 0 <= t < |items|
      ensures Occurrences(items[t], ',') == 0
    {
      LiteralAvoids(v[t], fmt, ',');
    }
    OccurrencesJoin(items, ", ", ',');
    SeparatorOccurrences(',');
  }

  /** Occurrences of c in one line of a matrix initializer, from the
      occurrences in its entries. */
  lemma RowLineOccurrences(m: seq<seq<real>>, i: nat, fmt: real -> string, c: char)
    requires i < |m| && c != ' ' && c != '{' && c != '}'
    ensures Occurrences(RowLine(m, i, fmt), c) ==
      Occurrences(Entries(m[i], fmt), c)
      + (if c == ',' && i < |m| - 1 then 1 else 0)
      + (if c == '\n' then 1 else 0)
  {
    var e := Entries(m[i], fmt);
    var tail := if i < |m| - 1 then "," else "";
    OccurrencesAvoid("  {", c);
    OccurrencesAvoid("}", c);
    OccurrencesOfChar(',', c);
    OccurrencesOfChar('\n', c);
    assert Occurrences(tail, c) == (if c == ',' && i < |m| - 1 then 1 else 0);
    OccurrencesAppend("  {", e, c);
    OccurrencesAppend("  {" + e, "}", c);
    OccurrencesAppend("  {" + e + "}", tail, c);
    OccurrencesAppend("  {" + e + "}" + tail, "\n", c);
  }

  /** A matrix initializer has exactly one line per row. */
  lemma {:induction false} MatrixLinesPerRow(m: seq<seq<real>>, k: nat, fmt: real -> string)
    requires k <= |m| && FormatAvoids(fmt, '\n')
    ensures Occurrences(MatrixLines(m, k, fmt), '\n') == k
  {
    if k > 0 {
      MatrixLinesPerRow(m, k - 1, fmt);
      EntriesAvoid(m[k - 1], fmt, '\n');
      RowLineOccurrences(m, k - 1, fmt, '\n');
      OccurrencesAppend(MatrixLines(m, k - 1, fmt), RowLine(m, k - 1, fmt), '\n');
    }
  }

  /** The first k rows hold cols - 1 separators inside each row and one
      after each row but the last of the matrix. */
  lemma {:induction false} MatrixCommas(m: seq<seq<real>>, k: nat, cols: nat, fmt: real -> string)
    requires IsMatrix(m, |m|, cols) && cols > 0 && 0 < k <= |m|
    requires FormatAvoids(fmt, ',')
    ensures Occurrences(MatrixLines(m, k, fmt), ',') == k * cols - (if k == |m| then 1 else 0)
  {
    var prefix := MatrixLines(m, k - 1, fmt);
    var line := RowLine(m, k - 1, fmt);
    assert MatrixLines(m, k, fmt) == prefix + line;
    OccurrencesAppend(prefix, line, ',');
    RowCommas(m, k - 1, cols, fmt);
    var before := Occurrences(prefix, ',');
    if k > 1 {
      MatrixCommas(m, k - 1, cols, fmt);
      assert before == (k - 1) * cols;
    } else {
      assert prefix == "";
      assert before == (k - 1) * cols;
    }
    PrefixCommas(k, cols);
  }

  /** Row i holds cols - 1 separators inside it, plus one after it unless
      it is the matrix's last row. */
  lemma RowCommas(m: seq<seq<real>>, i: nat, cols: nat, fmt: real -> string)
    requires IsMatrix(m, |m|, cols) && cols > 0 && i < |m|
    requires FormatAvoids(fmt, ',')
    ensures Occurrences(RowLine(m, i, fmt), ',') == cols - (if i == |m| - 1 then 1 else 0)
  {
    assert |m[i]| == cols;
    EntriesCommas(m[i], fmt);
    RowLineOccurrences(m, i, fmt, ',');
  }

  lemma PrefixCommas(k: int, cols: int)
    ensures (k - 1) * cols + cols == k * cols
  {
  }

  /** The whole initializer: one line per row, and rows * (cols - 1)
      separators inside the rows plus rows - 1 between them. */
  lemma MatrixBodyShape(m: seq<seq<real>>, cols: nat, fmt: real -> string)
    requires IsMatrix(m, |m|, cols) && cols > 0
    requires FormatAvoids(fmt, '\n') && FormatAvoids(fmt, ',')
    ensures Occurrences(MatrixBody(m, fmt), '\n') == |m|
    ensures |m| > 0 ==> Occurrences(MatrixBody(m, fmt), ',') == |m| * cols - 1
  {
    MatrixLinesPerRow(m, |m|, fmt);
    if |m| > 0 {
      MatrixCommas(m, |m|, cols, fmt);
    }
  }

  /** A vector initializer lists its n entries on one line, separated by
      n - 1 commas. */
  lemma VectorEntriesShape(v: seq<real>, fmt: real -> string)
    requires |v| > 0 && FormatAvoids(fmt, ',') && FormatAvoids(fmt, '\n')
    ensures Occurrences(Entries(v, fmt), ',') == |v| - 1
    ensures Occurrences(Entries(v, fmt), '\n') == 0
  {
    EntriesCommas(v, fmt);
    EntriesAvoid(v, fmt, '\n');
  }

  /** The fixed punctuation around an initializer: the opening `= {` line
      end, the vector's indent, and the closing `};` with its blank line. */
  lemma DelimiterOccurrences(c: char)
    requires c == '\n' || c == ','
    ensures Occurrences(" = {\n", c) == (if c == '\n' then 1 else 0)
    ensures Occurrences(" = {\n  ", c) == (if c == '\n' then 1 else 0)
    ensures Occurrences("};\n\n", c) == (if c == '\n' then 2 else 0)
    ensures Occurrences("\n};\n\n", c) == (if c == '\n' then 3 else 0)
  {
    assert " = {\n" == " = {" + "\n";
    assert " = {\n  " == " = {" + "\n" + "  ";
    assert "};\n\n" == "};" + "\n" + "\n";
    assert "\n};\n\n" == "\n" + "};\n\n";
    OccurrencesAvoid(" = {", c);
    OccurrencesAvoid("  ", c);
    OccurrencesAvoid("};", c);
    OccurrencesOfChar('\n', c);
    OccurrencesAppend(" = {", "\n", c);
    OccurrencesAppend(" = {" + "\n", "  ", c);
    OccurrencesAppend("};", "\n", c);
    OccurrencesAppend("};" + "\n", "\n", c);
    OccurrencesAppend("\n", "};\n\n", c);
  }

  /** A whole two-dimensional declaration, for a declaration text with no
      line end or comma: one line for `= {`, one per row, then `};` and a
      blank line; the commas are those of its rows. */
  lemma MatrixBlockShape(decl: string, m: seq<seq<real>>, cols: nat, fmt: real -> string)
    requires IsMatrix(m, |m|, cols) && cols > 0 && |m| > 0
    requires FormatAvoids(fmt, '\n') && FormatAvoids(fmt, ',')
    requires Occurrences(decl, '\n') == 0 && Occurrences(decl, ',') == 0
    ensures Occurrences(MatrixBlock(decl, m, fmt), '\n') == |m| + 3
    ensures Occurrences(MatrixBlock(decl, m, fmt), ',') == |m| * cols - 1
  {
    MatrixBodyShape(m, cols, fmt);
    var body := MatrixBody(m, fmt);
    forall c | c == '\n' || c == ','
      ensures Occurrences(MatrixBlock(decl, m, fmt), c)
        == Occurrences(decl, c) + Occurrences(" = {\n", c) + Occurrences(body, c) + Occurrences("};\n\n", c)
    {
      OccurrencesAppend(decl, " = {\n", c);
      OccurrencesAppend(decl + " = {\n", body, c);
      OccurrencesAppend(decl + " = {\n" + body, "};\n\n", c);
    }
    DelimiterOccurrences('\n');
    DelimiterOccurrences(',');
  }

  /** A whole one-dimensional declaration: four line ends (after `= {`,
      after the entries, after `};`, and the blank line) and n - 1 commas. */
  lemma VectorBlockShape(decl: string, v: seq<real>, fmt: real -> string)
    requires |v| > 0 && FormatAvoids(fmt, ',') && FormatAvoids(fmt, '\n')
    requires Occurrences(decl, '\n') == 0 && Occurrences(decl, ',') == 0
    ensures Occurrences(VectorBlock(decl, v, fmt), '\n') == 4
    ensures Occurrences(VectorBlock(decl, v, fmt), ',') == |v| - 1
  {
    VectorEntriesShape(v, fmt);
    var entries := Entries(v, fmt);
    forall c | c == '\n' || c == ','
      ensures Occurrences(VectorBlock(decl, v, fmt), c)
        == Occurrences(decl, c) + Occurrences(" = {\n  ", c) + Occurrences(entries, c) + Occurrences("\n};\n\n", c)
    {
      OccurrencesAppend(decl, " = {\n  ", c);
      OccurrencesAppend(decl + " = {\n  ", entries, c);
      OccurrencesAppend(decl + " = {\n  " + entries, "\n};\n\n", c);
    }
    DelimiterOccurrences('\n');
    DelimiterOccurrences(',');
  }

  // ---------------------------------------------------------------------
  // Reported sizes

  /** numpy's `.size`: the number of entries. */
  function Size(m: seq<seq<real>>): nat
  {
    if |m| == 0 then 0 else Size(m[..|m| - 1]) + |m[|m| - 1]|
  }

  lemma {:induction false} SizeOfMatrix(m: seq<seq<real>>, rows: nat, cols: nat)
    requires IsMatrix(m, rows, cols)
    ensures Size(m) == rows * cols
  {
    if rows > 0 {
      SizeOfMatrix(m[..rows - 1], rows - 1, cols);
    }
  }

  /** "Total Parameters": the entries of the four arrays. */
  function ParameterCount(net: Network): nat
  {
    Size(net.encoderWeights) + |net.encoderBias| + Size(net.decoderWeights) + |net.decoderBias|
  }

  /** "Model Size": four bytes per parameter and per scaler entry. */
  function ModelBytes(net: Network, config: ModelConfig): nat
  {
    (ParameterCount(net) + |config.scalerMean| + |config.scalerStd|) * 4
  }

  /** For n inputs and h hidden units the network holds 2nh + n + h
      parameters; with n-long scaler vectors the header's constants take
      4 (2nh + 3n + h) bytes. */
  lemma ParameterCounts(net: Network, config: ModelConfig)
    requires net.WellShaped()
    ensures var n, h := net.InputDim(), net.HiddenDim();
      ParameterCount(net) == 2 * n * h + n + h
      && (|config.scalerMean| == n && |config.scalerStd| == n ==>
          ModelBytes(net, config) == (2 * n * h + 3 * n + h) * 4)
  {
    var n, h := net.InputDim(), net.HiddenDim();
    SizeOfMatrix(net.encoderWeights, n, h);
    SizeOfMatrix(net.decoderWeights, h, n);
  }

  /** The reference 8-4-8 model: 76 parameters, 368 bytes. */
  lemma ReferenceModelSize(net: Network, config: ModelConfig)
    requires net.WellShaped() && net.InputDim() == INPUT_DIM && net.HiddenDim() == HIDDEN_DIM
    requires |config.scalerMean| == INPUT_DIM && |config.scalerStd| == INPUT_DIM
    ensures ParameterCount(net) == 76
    ensures ModelBytes(net, config) == 368
  {
    ParameterCounts(net, config);
  }
}
