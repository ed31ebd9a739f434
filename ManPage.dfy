/**
 * The text transformation at the heart of the man-page generator: the help
 * text printed by the command-line parser is cut into blank-line separated
 * sections, its synopsis is flattened to one line, each option line becomes a
 * troff `.TP` paragraph with bold flags, and every dash of every field is
 * escaped for troff. The help text, the version, the release date, the
 * licence and the copyright are inputs; reading the template and writing the
 * page are not modelled.
 */
module ManPage {
  import opened Wrappers
  import opened PyStr

  /** The two exceptions the generator can raise while reading the help text. */
  datatype BuildError =
    | MissingSection(index: nat)    // IndexError: the help text has no section `index`
    | MalformedOption(line: string) // ValueError: an option line has no double space to split at

  /** One option of the help text: its troff-formatted flags and its description. */
  datatype OptionEntry = OptionEntry(flags: string, description: string)

  /** The keys of the dictionary handed to the page template. */
  const ManPageKeys: set<string> :=
    {"version", "release_date", "synopsis", "description", "options", "license", "copyright"}

  /** The help text of the first section with `usage: ` removed and its lines stripped and joined by one space. */
  function Synopsis(section: string): (r: string)
    ensures '\n' !in r
  {
    var lines := Split(Replace(section, "usage: ", ""), "\n");
    var stripped := seq(|lines|, i requires 0 <= i < |lines| => Strip(lines[i]));
    SplitPieces(Replace(section, "usage: ", ""), "\n");
    forall i | 0 <= i < |lines| ensures '\n' !in stripped[i] {
      NoCharInPiece(lines[i], '\n');
      StripKeepsOut(lines[i], '\n');
    }
    NoCharInJoin(" ", stripped, '\n');
    Join(" ", stripped)
  }

  /** One flag in troff bold: `\fB` flag `\fR`. */
  function Bold(flag: string): string {
    "\\fB" + flag + "\\fR"
  }

  /** A comma-separated flag list with every flag in bold. */
  function WrapFlags(flags: string): string {
    var fs := Split(flags, ", ");
    Join(", ", seq(|fs|, i requires 0 <= i < |fs| => Bold(fs[i])))
  }

  /** The inverse of `Bold` on its image: the flag between `\fB` and `\fR`. */
  function Unbold(w: string): string {
    if |w| >= 6 && w[..3] == "\\fB" && w[|w| - 3..] == "\\fR" then w[3..|w| - 3] else w
  }

  /** Reads the flags back out of a `WrapFlags` result. */
  function UnwrapFlags(w: string): string {
    var ws := Split(w, ", ");
    Join(", ", seq(|ws|, i requires 0 <= i < |ws| => Unbold(ws[i])))
  }

  /** A bold flag cannot hide a `, ` separator, not even one straddling its end. */
  lemma BoldSeparable(f: string)
    requires NoOccurrence(f, ", ")
    ensures Separable(Bold(f), ", ")
  {
    var x := Bold(f) + ",";
    assert ", "[..|", "| - 1] == ",";
    assert |x| == |f| + 7;
    assert forall k :: 3 <= k < 3 + |f| ==> x[k] == f[k - 3];
    assert x[..3] == "\\fB" && x[3 + |f|..] == "\\fR,";
    forall j: nat ensures !OccursAt(x, j, ", ") {
      if j < 3 {
        assert x[j] == "\\fB"[j];
      } else if j + 2 <= 3 + |f| {
        assert x[j..j + 2] == f[j - 3..j - 1];
        assert !OccursAt(f, j - 3, ", ");
      } else if j + 2 <= |x| {
        assert x[j + 1] == "\\fR,"[j + 1 - 3 - |f|];
      }
    }
  }

  /** Wrapping flags in bold loses nothing: unwrapping gives them back. */
  lemma WrapFlagsRoundTrip(flags: string)
    ensures UnwrapFlags(WrapFlags(flags)) == flags
  {
    var fs := Split(flags, ", ");
    var ws := seq(|fs|, i requires 0 <= i < |fs| => Bold(fs[i]));
    SplitPieces(flags, ", ");
    forall i | 0 <= i < |ws| ensures Separable(ws[i], ", ") {
      BoldSeparable(fs[i]);
    }
    SplitJoin(ws, ", ");
    assert Split(WrapFlags(flags), ", ") == ws;
    var us := seq(|ws|, i requires 0 <= i < |ws| => Unbold(ws[i]));
    forall i | 0 <= i < |ws| ensures us[i] == fs[i] {
      assert ws[i][..3] == "\\fB" && ws[i][|ws[i]| - 3..] == "\\fR";
      assert ws[i][3..|ws[i]| - 3] == fs[i];
    }
    assert us == fs;
    JoinSplit(flags, ", ");
  }

  /** The worked example of the generator: `-h, --help` becomes `\fB-h\fR, \fB--help\fR`. */
  lemma WrapFlagsExample(flags: string)
    requires flags == "-h, --help"
    ensures WrapFlags(flags) == "\\fB-h\\fR, \\fB--help\\fR"
  {
    var fs := Split(flags, ", ");
    SplitFlagsExample();
    var ws := seq(|fs|, i requires 0 <= i < |fs| => Bold(fs[i]));
    assert ws == [Bold("-h"), Bold("--help")];
    assert ws[1..] == [Bold("--help")];
    assert Join(", ", ws) == Bold("-h") + ", " + Bold("--help");
    assert WrapFlags(flags) == Join(", ", ws);
    BoldPairText();
  }

  lemma BoldPairText()
    ensures Bold("-h") + ", " + Bold("--help") == "\\fB-h\\fR, \\fB--help\\fR"
  {
  }

  /** The flag list of the worked example holds two flags. */
  lemma SplitFlagsExample()
    ensures Split("-h, --help", ", ") == ["-h", "--help"]
  {
    var s := "-h, --help";
    var t := "--help";
    assert s[2..4] == ", ";
    assert s[0..2] == "-h" && s[1..3] == "h,";
    FindLeftmost(s, ", ", 2);
    assert s[..2] == "-h" && s[4..] == t;
    forall j: nat ensures !OccursAt(t, j, ", ") {
      if j < |t| {
        assert t[j] != ',';
      }
    }
    FindNone(t, ", ");
  }

  /**
   * One line of the options section: stripped, split at its first double
   * space, both columns stripped and the flags put in bold.
   */
  function ParseOptionLine(argument: string): (r: Result<OptionEntry, BuildError>)
    ensures r.Failure? ==> r.error == MalformedOption(argument)
  {
    var cols := SplitOnce(Strip(argument), "  ");
    if |cols| < 2 then Failure(MalformedOption(argument))
    else Success(OptionEntry(WrapFlags(Strip(cols[0])), Strip(cols[1])))
  }

  /** An option line is rejected exactly when its stripped text has no double space. */
  lemma ParseOptionLineFails(argument: string)
    ensures ParseOptionLine(argument).Failure? <==> NoOccurrence(Strip(argument), "  ")
  {
    SplitOnceParts(Strip(argument), "  ");
  }

  /** Where the first double space of the stripped line falls decides both columns. */
  lemma ParseOptionLineColumns(argument: string, flags: string, description: string)
    requires Strip(argument) == flags + "  " + description
    requires forall j: nat :: j < |flags| ==> !OccursAt(Strip(argument), j, "  ")
    ensures ParseOptionLine(argument) == Success(OptionEntry(WrapFlags(Strip(flags)), Strip(description)))
  {
    var s := Strip(argument);
    assert s[|flags|..|flags| + 2] == "  ";
    FindLeftmost(s, "  ", |flags|);
    assert s[..|flags|] == flags;
    assert s[|flags| + 2..] == description;
  }

  /** The `.TP` paragraph of one option: the four parts `.TP`, the flags, the description and a newline, joined by newlines. */
  function RenderBlock(e: OptionEntry): string {
    Join("\n", [".TP", e.flags, e.description, "\n"])
  }

  /** Each paragraph is `.TP`, the flags and the description on lines of their own, then a blank line. */
  lemma RenderBlockShape(e: OptionEntry)
    ensures RenderBlock(e) == ".TP\n" + e.flags + "\n" + e.description + "\n\n"
  {
    var last := ["\n"];
    var desc := [e.description] + last;
    var flags := [e.flags] + desc;
    assert Join("\n", last) == "\n";
    assert desc[1..] == last;
    assert Join("\n", desc) == e.description + "\n" + "\n";
    assert flags[1..] == desc;
    assert Join("\n", flags) == e.flags + "\n" + e.description + "\n" + "\n";
    assert [".TP"] + flags == [".TP", e.flags, e.description, "\n"];
    assert ([".TP"] + flags)[1..] == flags;
  }

  /**
   * A well-formed help line: indentation, flags without a double space, a gap
   * of at least two spaces, a description and trailing whitespace. It parses
   * to the bold flags and the bare description.
   */
  lemma OptionLineShape(indent: string, flags: string, gap: string, description: string, trail: string)
    requires AllSpace(indent) && AllSpace(gap) && AllSpace(trail)
    requires |gap| >= 2 && gap[..2] == "  "
    requires flags != [] && !IsSpace(flags[0]) && !IsSpace(flags[|flags| - 1]) && NoOccurrence(flags, "  ")
    requires description != [] && !IsSpace(description[0]) && !IsSpace(description[|description| - 1])
    ensures ParseOptionLine(indent + flags + gap + description + trail)
            == Success(OptionEntry(WrapFlags(flags), description))
  {
    var line := indent + flags + gap + description + trail;
    var rest := gap[2..] + description;
    var s := flags + "  " + rest;
    assert gap == "  " + gap[2..];
    assert line == indent + s + trail;
    assert s[0] == flags[0] && s[|s| - 1] == description[|description| - 1];
    StripSurrounded(indent, s, trail);
    forall j: nat | j < |flags| ensures !OccursAt(s, j, "  ") {
      if j + 1 < |flags| {
        assert s[j..j + 2] == flags[j..j + 2];
        assert !OccursAt(flags, j, "  ");
      } else {
        assert s[j] == flags[j];
      }
    }
    ParseOptionLineColumns(line, flags, rest);
    assert "" + flags + "" == flags;
    StripSurrounded("", flags, "");
    assert gap[2..] + description + "" == rest;
    assert AllSpace(gap[2..]);
    StripSurrounded(gap[2..], description, "");
  }

  /**
   * The worked example of the generator in full: the help line of `-h, --help`
   * becomes a `.TP` paragraph with both flags in bold and the description on
   * its own line.
   */
  lemma OptionLineExample(line: string)
    requires line == "        " + "-h, --help" + "        " + "show this help message and exit"
    ensures ParseOptionLine(line).Success?
    ensures RenderBlock(ParseOptionLine(line).value)
            == ".TP\n" + "\\fB-h\\fR, \\fB--help\\fR" + "\n" + "show this help message and exit" + "\n\n"
  {
    var indent, flags, gap, desc := "        ", "-h, --help", "        ", "show this help message and exit";
    assert line == indent + flags + gap + desc + "";
    forall j: nat ensures !OccursAt(flags, j, "  ") {
      if j + 2 <= |flags| {
        assert j == 3 ==> flags[4] == '-';
        assert j != 3 ==> flags[j] != ' ';
      }
    }
    OptionLineShape(indent, flags, gap, desc, "");
    WrapFlagsExample(flags);
    RenderBlockShape(ParseOptionLine(line).value);
  }

  /** The parse of every option line, in order. */
  function ParseAll(lines: seq<string>): (r: seq<Result<OptionEntry, BuildError>>)
    ensures |r| == |lines|
  {
    seq(|lines|, i requires 0 <= i < |lines| => ParseOptionLine(lines[i]))
  }

  /**
   * The options text the generator's loop accumulates from parsed lines, one
   * paragraph appended per line; the first failure stops it.
   */
  function Assemble(parsed: seq<Result<OptionEntry, BuildError>>): Result<string, BuildError>
    decreases |parsed|
  {
    if |parsed| == 0 then Success("")
    else
      match Assemble(parsed[..|parsed| - 1])
      case Failure(e) => Failure(e)
      case Success(prefix) =>
        match parsed[|parsed| - 1]
        case Failure(e) => Failure(e)
        case Success(entry) => Success(prefix + RenderBlock(entry))
  }

  /** The options text for the given option lines. */
  function OptionsOf(lines: seq<string>): Result<string, BuildError> {
    Assemble(ParseAll(lines))
  }

  /** The option lines of the options section: every line but the header. */
  function OptionLines(section: string): seq<string> {
    Split(section, "\n")[1..]
  }

  /** The header line of the options section never reaches the options text. */
  lemma HeaderSkipped(header: string, body: string)
    requires '\n' !in header
    ensures OptionLines(header + "\n" + body) == Split(body, "\n")
  {
    var s := header + "\n" + body;
    forall j: nat | j < |header| ensures !OccursAt(s, j, "\n") {
      assert s[j] == header[j];
    }
    assert s[|header|..|header| + 1] == "\n";
    FindLeftmost(s, "\n", |header|);
    assert s[|header| + 1..] == body;
  }

  /** Failure of a prefix is failure of the whole, with the same error. */
  lemma {:induction false} AssembleFailureSticks(parsed: seq<Result<OptionEntry, BuildError>>, k: nat)
    requires k <= |parsed|
    requires Assemble(parsed[..k]).Failure?
    ensures Assemble(parsed) == Assemble(parsed[..k])
    decreases |parsed| - k
  {
    if k < |parsed| {
      assert parsed[..k + 1][..k] == parsed[..k];
      AssembleFailureSticks(parsed, k + 1);
    } else {
      assert parsed[..k] == parsed;
    }
  }

  lemma {:induction false} AssembleSucceedIff(parsed: seq<Result<OptionEntry, BuildError>>)
    ensures Assemble(parsed).Success? <==> forall i :: 0 <= i < |parsed| ==> parsed[i].Success?
    decreases |parsed|
  {
    if |parsed| > 0 {
      var init := parsed[..|parsed| - 1];
      AssembleSucceedIff(init);
      assert forall i :: 0 <= i < |init| ==> init[i] == parsed[i];
    }
  }

  lemma {:induction false} AssembleFirstError(parsed: seq<Result<OptionEntry, BuildError>>)
    requires Assemble(parsed).Failure?
    ensures exists k :: 0 <= k < |parsed| && parsed[k].Failure? && Assemble(parsed).error == parsed[k].error
                        && forall i :: 0 <= i < k ==> parsed[i].Success?
    decreases |parsed|
  {
    var init := parsed[..|parsed| - 1];
    assert forall i :: 0 <= i < |init| ==> init[i] == parsed[i];
    if Assemble(init).Failure? {
      AssembleFirstError(init);
      var k :| 0 <= k < |init| && init[k].Failure? && Assemble(init).error == init[k].error
               && forall i :: 0 <= i < k ==> init[i].Success?;
      assert parsed[k] == init[k];
    } else {
      AssembleSucceedIff(init);
      assert parsed[|parsed| - 1].Failure?;
    }
  }

  lemma {:induction false} ConcatSnoc(parts: seq<string>, last: string)
    ensures Concat(parts + [last]) == Concat(parts) + last
    decreases |parts|
  {
    if |parts| > 0 {
      assert (parts + [last])[1..] == parts[1..] + [last];
      ConcatSnoc(parts[1..], last);
    }
  }

  /** The paragraph of a parsed line (none for a line that failed). */
  function BlockOf(parsed: Result<OptionEntry, BuildError>): string {
    match parsed
    case Success(entry) => RenderBlock(entry)
    case Failure(_) => ""
  }

  lemma {:induction false} AssembleText(parsed: seq<Result<OptionEntry, BuildError>>)
    requires forall i :: 0 <= i < |parsed| ==> parsed[i].Success?
    ensures Assemble(parsed) == Success(Concat(seq(|parsed|, i requires 0 <= i < |parsed| => BlockOf(parsed[i]))))
    decreases |parsed|
  {
    var blocks := seq(|parsed|, i requires 0 <= i < |parsed| => BlockOf(parsed[i]));
    if |parsed| > 0 {
      var n := |parsed| - 1;
      var init := parsed[..n];
      AssembleText(init);
      var initBlocks := seq(|init|, i requires 0 <= i < |init| => BlockOf(init[i]));
      assert blocks == initBlocks + [BlockOf(parsed[n])];
      ConcatSnoc(initBlocks, BlockOf(parsed[n]));
    } else {
      assert blocks == [];
    }
  }

  /** The options text exists exactly when every option line has a double space to split at. */
  lemma OptionsSucceedIff(lines: seq<string>)
    ensures OptionsOf(lines).Success? <==> forall i :: 0 <= i < |lines| ==> ParseOptionLine(lines[i]).Success?
  {
    var parsed := ParseAll(lines);
    AssembleSucceedIff(parsed);
    assert forall i :: 0 <= i < |lines| ==> parsed[i] == ParseOptionLine(lines[i]);
  }

  /** A failure is the error of the first option line that could not be split. */
  lemma OptionsFirstError(lines: seq<string>)
    requires OptionsOf(lines).Failure?
    ensures exists k :: 0 <= k < |lines| && OptionsOf(lines).error == MalformedOption(lines[k])
                        && ParseOptionLine(lines[k]).Failure?
                        && forall i :: 0 <= i < k ==> ParseOptionLine(lines[i]).Success?
  {
    var parsed := ParseAll(lines);
    AssembleFirstError(parsed);
    var k :| 0 <= k < |parsed| && parsed[k].Failure? && Assemble(parsed).error == parsed[k].error
             && forall i :: 0 <= i < k ==> parsed[i].Success?;
    assert parsed[k] == ParseOptionLine(lines[k]);
    assert forall i :: 0 <= i < k ==> parsed[i] == ParseOptionLine(lines[i]);
    assert OptionsOf(lines).error == MalformedOption(lines[k]);
  }

  /** When every option line parses, the options text is one `.TP` paragraph per line, in order. */
  lemma OptionsText(lines: seq<string>)
    requires forall i :: 0 <= i < |lines| ==> ParseOptionLine(lines[i]).Success?
    ensures OptionsOf(lines)
            == Success(Concat(seq(|lines|, i requires 0 <= i < |lines| => RenderBlock(ParseOptionLine(lines[i]).value))))
  {
    var parsed := ParseAll(lines);
    AssembleText(parsed);
    assert seq(|parsed|, i requires 0 <= i < |parsed| => BlockOf(parsed[i]))
        == seq(|lines|, i requires 0 <= i < |lines| => RenderBlock(ParseOptionLine(lines[i]).value));
  }

  /** The generator's options loop over the lines after the section's header. */
  method BuildOptions(section: string) returns (r: Result<string, BuildError>)
    ensures r == OptionsOf(OptionLines(section))
  {
    var arguments := Split(section, "\n");
    var lines := arguments[1..];
    ghost var all := ParseAll(lines);
    var options := "";
    var i := 0;
    while i < |lines|
      invariant 0 <= i <= |lines|
      invariant Assemble(all[..i]) == Success(options)
    {
      var parsed := ParseOptionLine(lines[i]);
      assert parsed == all[i];
      assert all[..i + 1][..i] == all[..i];
      if parsed.Failure? {
        AssembleFailureSticks(all, i + 1);
        return Failure(parsed.error);
      }
      options := options + RenderBlock(parsed.value);
      i := i + 1;
    }
    assert all[..i] == all;
    return Success(options);
  }

  function CountChar(s: string, c: char): nat {
    if |s| == 0 then 0 else (if s[0] == c then 1 else 0) + CountChar(s[1..], c)
  }

  /** Escaping a string is escaping its first character and then the rest. */
  lemma EscapeCons(c: char, t: string)
    ensures Replace([c] + t, "-", "\\-") == (if c == '-' then "\\-" else [c]) + Replace(t, "-", "\\-")
  {
    var s := [c] + t;
    assert s[0..1] == [c];
    assert s[1..] == t;
  }

  lemma {:induction false} EscapeProperties(s: string)
    ensures |Replace(s, "-", "\\-")| == |s| + CountChar(s, '-')
    ensures Replace(s, "-", "\\-") != [] ==> Replace(s, "-", "\\-")[0] != '-'
    ensures Replace(Replace(s, "-", "\\-"), "\\-", "-") == s
    decreases |s|
  {
    if |s| > 0 {
      var c, t := s[0], s[1..];
      assert s == [c] + t;
      EscapeCons(c, t);
      EscapeProperties(t);
      var x := Replace(t, "-", "\\-");
      if c == '-' {
        var y := "\\-" + x;
        assert y[0..2] == "\\-" && y[2..] == x;
      } else {
        var y := [c] + x;
        assert y[1..] == x;
        if |x| > 0 {
          assert y[0..2] == [c, x[0]];
        }
        assert !OccursAt(y, 0, "\\-");
      }
    }
  }

  /**
   * troff needs `\-` for a printed dash: every `-` becomes `\-`, nothing else
   * changes, and replacing `\-` by `-` afterwards gives the input back.
   */
  function EscapeDashes(s: string): (r: string)
    ensures |r| == |s| + CountChar(s, '-')
    ensures Replace(r, "\\-", "-") == s
  {
    EscapeProperties(s);
    Replace(s, "-", "\\-")
  }

  /** Every dash of the escaped text follows a backslash. */
  lemma {:induction false} EscapedDashesFollowBackslash(s: string)
    ensures forall i :: 0 <= i < |EscapeDashes(s)| && EscapeDashes(s)[i] == '-' ==> i > 0 && EscapeDashes(s)[i - 1] == '\\'
    decreases |s|
  {
    if |s| > 0 {
      var c, t := s[0], s[1..];
      assert s == [c] + t;
      EscapeCons(c, t);
      EscapedDashesFollowBackslash(t);
      EscapeProperties(t);
      var x := EscapeDashes(t);
      var hd := if c == '-' then "\\-" else [c];
      var r := hd + x;
      assert EscapeDashes(s) == r;
      forall i | 0 <= i < |r| && r[i] == '-' ensures i > 0 && r[i - 1] == '\\' {
        if i >= |hd| {
          var k := i - |hd|;
          assert r[i] == x[k];
          if k == 0 {
            assert false;
          } else {
            assert r[i - 1] == x[k - 1];
          }
        }
      }
    }
  }

  /** The dictionary comprehension that escapes every field: same keys, each value escaped. */
  function EscapeAll(data: map<string, string>): (r: map<string, string>)
    ensures r.Keys == data.Keys
    ensures forall k :: k in r ==> Replace(r[k], "\\-", "-") == data[k]
    ensures forall k :: k in r ==> |r[k]| == |data[k]| + CountChar(data[k], '-')
  {
    map k | k in data :: EscapeDashes(data[k])
  }

  /**
   * The generator's main transformation: the template fields filled in from the
   * help text and the package metadata, with every dash escaped.
   */
  method BuildManPage(help: string, version: string, releaseDate: string, license: string, copyright: string)
    returns (r: Result<map<string, string>, BuildError>)
    ensures var sections := Split(help, "\n\n");
            r.Success? <==> |sections| >= 3 && OptionsOf(OptionLines(sections[2])).Success?
    ensures var sections := Split(help, "\n\n");
            |sections| < 2 ==> r == Failure(MissingSection(1))
    ensures var sections := Split(help, "\n\n");
            |sections| == 2 ==> r == Failure(MissingSection(2))
    ensures var sections := Split(help, "\n\n");
            |sections| >= 3 && OptionsOf(OptionLines(sections[2])).Failure? ==>
              r == Failure(OptionsOf(OptionLines(sections[2])).error)
    ensures var sections := Split(help, "\n\n");
            r.Success? ==>
              && r.value.Keys == ManPageKeys
              && r.value["version"] == EscapeDashes(version)
              && r.value["release_date"] == EscapeDashes(releaseDate)
              && r.value["synopsis"] == EscapeDashes(Synopsis(sections[0]))
              && r.value["description"] == EscapeDashes(sections[1])
              && r.value["options"] == EscapeDashes(OptionsOf(OptionLines(sections[2])).value)
              && r.value["license"] == EscapeDashes(license)
              && r.value["copyright"] == EscapeDashes(copyright)
  {
    var sections := Split(help, "\n\n");
    var data: map<string, string> := map[];
    data := data["version" := version];
    data := data["release_date" := releaseDate];
    data := data["synopsis" := Synopsis(sections[0])];
    if |sections| < 2 {
      return Failure(MissingSection(1));
    }
    data := data["description" := sections[1]];
    if |sections| < 3 {
      return Failure(MissingSection(2));
    }
    var options := BuildOptions(sections[2]);
    if options.Failure? {
      return Failure(options.error);
    }
    data := data["options" := options.value];
    data := data["license" := license];
    data := data["copyright" := copyright];
    r := Success(EscapeAll(data));
  }
}
