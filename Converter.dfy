/** The per-file and per-directory drivers: `convert_mdx_file` and
    `convert_directory`. Reading and writing a file are abstracted to a
    `FileInput`: the text read (none when reading fails) and whether the
    write would succeed. Every failure is the `False` outcome. */
module Converter {
  import opened Values
  import opened Extractor
  import opened Mapper
  import opened Serializer

  /** The new document: the serialized header between the two delimiters,
      then the body. */
  function Reassemble(yaml: string, body: string): (r: string)
    ensures |r| == |yaml| + |body| + 9
  {
    Opening + yaml + Closing + body
  }

  /** What `convert_mdx_file` writes for a document: nothing when the
      extractor finds no header, otherwise the converted header and the
      body exactly as the extractor returned it. */
  function ConvertedContent(content: string, load: string -> YamlResult, dump: YamlDump): Option<string>
  {
    var parsed := ParseMdxFrontmatter(content, load);
    match parsed.front
    case None => None
    case Some(front) => Some(Reassemble(Serialize(ConvertFrontmatter(front), dump), parsed.body))
  }

  /** One file as the converter sees it: its text, or `None` when opening or
      decoding it fails, and whether writing the result back succeeds. */
  datatype FileInput = FileInput(content: Option<string>, writable: bool)

  /** What is written back to a file: the converted content, when the file
      could be read and written. */
  function Written(file: FileInput, load: string -> YamlResult, dump: YamlDump): Option<string>
  {
    if file.content.Some? && file.writable then ConvertedContent(file.content.value, load, dump) else None
  }

  /** `convert_mdx_file` with the output written back to the same file:
      `ok` is the returned flag and `written` the text written, if any. */
  method ConvertMdxFile(file: FileInput, load: string -> YamlResult, dump: YamlDump)
    returns (ok: bool, written: Option<string>)
    ensures ok <==> written.Some?
    ensures written == Written(file, load, dump)
  {
    if file.content.None? {
      return false, None;
    }
    var content := file.content.value;
    var parsed := ParseMdxFrontmatter(content, load);
    if parsed.front.None? {
      return false, None;
    }
    var newFrontmatter := ConvertFrontmatter(parsed.front.value);
    var newYaml := FrontmatterToYaml(newFrontmatter, dump);
    var newContent := Opening + newYaml + Closing + parsed.body;
    if !file.writable {
      return false, None;
    }
    return true, Some(newContent);
  }

  /** A document without a header, with a header that is not valid YAML, or
      with a header that loads as null is not converted: nothing is written. */
  lemma {:induction false} NoFrontmatterNotConverted(content: string, load: string -> YamlResult, dump: YamlDump)
    ensures ConvertedContent(content, load, dump).None? <==>
            (SplitFrontmatter(content).None? ||
             load(SplitFrontmatter(content).value.0).YamlError? ||
             load(SplitFrontmatter(content).value.0) == Loaded(None))
  {
    if SplitFrontmatter(content).Some? {
      var header := SplitFrontmatter(content).value.0;
      if load(header).YamlError? || load(header) == Loaded(None) {
        BadYamlIsNoFrontmatter(content, load);
      }
    }
  }

  /** A converted document is the original one with only its header
      replaced: the part after the original closing delimiter is carried
      over unchanged, and the new header is the serialized mapping of the
      loaded one. */
  lemma ConvertedKeepsBody(content: string, load: string -> YamlResult, dump: YamlDump)
    requires ConvertedContent(content, load, dump).Some?
    ensures SplitFrontmatter(content).Some?
    ensures var (header, rest) := SplitFrontmatter(content).value;
            content == Opening + header + Closing + rest &&
            load(header).Loaded? && load(header).doc.Some? &&
            ConvertedContent(content, load, dump).value ==
              Opening + Serialize(ConvertFrontmatter(load(header).doc.value), dump) + Closing + rest
  {
    var (header, rest) := SplitFrontmatter(content).value;
    SplitIff(content, header, rest);
  }

  /** A window of five characters that lies inside the header and the
      newline after it sees the same text in the new document. */
  lemma WindowInHeader(yaml: string, body: string, j: int)
    requires 0 <= j && j + 5 <= |yaml| + 1
    ensures ClosingAt(Reassemble(yaml, body), 4 + j) <==> ClosingAt(yaml + "\n", j)
  {
    var content := Reassemble(yaml, body);
    assert content[4..5 + |yaml|] == yaml + "\n";
    assert content[4 + j..9 + j] == content[4..5 + |yaml|][j..j + 5];
  }

  /** A window that starts in the last three characters of the header
      covers the newline opening the closing delimiter at one of its `-`
      positions, so it is not a delimiter. */
  lemma WindowAcrossEnd(yaml: string, body: string, j: int)
    requires 0 <= j < |yaml| < j + 4
    ensures !ClosingAt(Reassemble(yaml, body), 4 + j)
  {
    var content := Reassemble(yaml, body);
    var p := |yaml| - j;
    assert content[4 + |yaml|] == '\n';
    assert content[4 + j..9 + j][p] == '\n';
    assert Closing[p] == '-';
  }

  /** Reading the new document back: the extractor finds exactly the
      serialized header and the body again, unless the header text itself
      holds a closing delimiter (a string value with `\n---` in it, say),
      which the non-greedy match would stop at. */
  lemma ReassembleSplits(yaml: string, body: string)
    ensures SplitFrontmatter(Reassemble(yaml, body)) == Some((yaml, body)) <==>
            forall j :: !ClosingAt(yaml + "\n", j)
  {
    var content := Reassemble(yaml, body);
    SplitIff(content, yaml, body);
    if forall j :: !ClosingAt(yaml + "\n", j) {
      forall k | 4 <= k < 4 + |yaml|
        ensures !ClosingAt(content, k)
      {
        if k + 1 <= |yaml| + 1 {
          WindowInHeader(yaml, body, k - 4);
        } else {
          WindowAcrossEnd(yaml, body, k - 4);
        }
      }
    }
    if exists j :: ClosingAt(yaml + "\n", j) {
      var j :| ClosingAt(yaml + "\n", j);
      WindowInHeader(yaml, body, j);
    }
  }

  /** The converter's output reads back as the header it serialized and the
      body it kept, whenever that serialized header holds no closing
      delimiter. */
  lemma ConvertedReadsBack(content: string, load: string -> YamlResult, dump: YamlDump)
    requires ConvertedContent(content, load, dump).Some?
    requires forall j :: !ClosingAt(Serialize(ConvertFrontmatter(ParseMdxFrontmatter(content, load).front.value), dump) + "\n", j)
    ensures SplitFrontmatter(ConvertedContent(content, load, dump).value) ==
            Some((Serialize(ConvertFrontmatter(ParseMdxFrontmatter(content, load).front.value), dump),
                  ParseMdxFrontmatter(content, load).body))
  {
    var parsed := ParseMdxFrontmatter(content, load);
    ReassembleSplits(Serialize(ConvertFrontmatter(parsed.front.value), dump), parsed.body);
  }

  /** `convert_mdx_file` returns `True` for this file. */
  predicate Succeeds(file: FileInput, load: string -> YamlResult, dump: YamlDump)
  {
    Written(file, load, dump).Some?
  }

  /** The flag `convert_mdx_file` returns for each file, in order. */
  function Outcomes(files: seq<FileInput>, load: string -> YamlResult, dump: YamlDump): (r: seq<bool>)
    ensures |r| == |files|
    ensures forall i :: 0 <= i < |files| ==> r[i] == Succeeds(files[i], load, dump)
  {
    if files == [] then [] else [Succeeds(files[0], load, dump)] + Outcomes(files[1..], load, dump)
  }

  /** The number of `True` flags: `success_count` after the flags. */
  function CountTrue(flags: seq<bool>): (n: nat)
    ensures n <= |flags|
  {
    if flags == [] then 0
    else CountTrue(flags[..|flags| - 1]) + (if flags[|flags| - 1] then 1 else 0)
  }

  /** One more flag adds one exactly when it is `True`. */
  lemma CountStep(flags: seq<bool>, i: nat)
    requires i < |flags|
    ensures CountTrue(flags[..i + 1]) == CountTrue(flags[..i]) + (if flags[i] then 1 else 0)
  {
    assert flags[..i + 1][..i] == flags[..i];
  }

  lemma {:induction false} CountAll(flags: seq<bool>)
    ensures CountTrue(flags) == |flags| <==> forall i :: 0 <= i < |flags| ==> flags[i]
  {
    if flags != [] {
      var init := flags[..|flags| - 1];
      CountAll(init);
      assert forall i :: 0 <= i < |init| ==> init[i] == flags[i];
    }
  }

  lemma {:induction false} CountNone(flags: seq<bool>)
    ensures CountTrue(flags) == 0 <==> forall i :: 0 <= i < |flags| ==> !flags[i]
  {
    if flags != [] {
      var init := flags[..|flags| - 1];
      CountNone(init);
      assert forall i :: 0 <= i < |init| ==> init[i] == flags[i];
    }
  }

  /** How many of the files are converted successfully. */
  function SuccessCount(files: seq<FileInput>, load: string -> YamlResult, dump: YamlDump): nat
  {
    CountTrue(Outcomes(files, load, dump))
  }

  /** The count never exceeds the number of files; it reaches it exactly
      when every file is converted, and is zero exactly when none is. */
  lemma SuccessCountBounds(files: seq<FileInput>, load: string -> YamlResult, dump: YamlDump)
    ensures SuccessCount(files, load, dump) <= |files|
    ensures SuccessCount(files, load, dump) == |files| <==>
            forall i :: 0 <= i < |files| ==> Succeeds(files[i], load, dump)
    ensures SuccessCount(files, load, dump) == 0 <==>
            forall i :: 0 <= i < |files| ==> !Succeeds(files[i], load, dump)
  {
    CountAll(Outcomes(files, load, dump));
    CountNone(Outcomes(files, load, dump));
  }

  /** `convert_directory` over the files the glob found, in order: `None`
      when there are none (the "no files found" exit), otherwise the
      reported pair (successes, files). Each file is converted in place by
      `ConvertMdxFile`. */
  method ConvertDirectory(files: seq<FileInput>, load: string -> YamlResult, dump: YamlDump)
    returns (report: Option<(nat, nat)>)
    ensures files == [] ==> report == None
    ensures files != [] ==> report == Some((SuccessCount(files, load, dump), |files|))
  {
    if |files| == 0 {
      return None;
    }
    var successCount := 0;
    for i := 0 to |files|
      invariant successCount == CountTrue(Outcomes(files, load, dump)[..i])
    {
      var ok, _ := ConvertMdxFile(files[i], load, dump);
      if ok {
        successCount := successCount + 1;
      }
      CountStep(Outcomes(files, load, dump), i);
      assert ok == Outcomes(files, load, dump)[i];
    }
    assert Outcomes(files, load, dump)[..|files|] == Outcomes(files, load, dump);
    return Some((successCount, |files|));
  }
}
