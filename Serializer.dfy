/** The header serializer: `frontmatter_to_yaml`. One line per item, in the
    header's order, joined by `"\n"`. A string becomes `key: "value"` with
    the value inserted as it is (no escaping); a list and every other value
    go through `yaml.dump`, whose output (stripped) follows `key: `. The two
    `yaml.dump` renderings are parameters of the model. */
module Serializer {
  import opened Values

  /** `yaml.dump(value, default_flow_style=True).strip()` for a list, and
      `yaml.dump(value).strip()` for any other non-string value. */
  datatype YamlDump = YamlDump(flowList: seq<string> -> string, scalar: Value -> string)

  /** The line one item becomes. */
  function RenderLine(item: (string, Value), dump: YamlDump): string
  {
    match item.1
    case Str(s) => item.0 + ": \"" + s + "\""
    case StrList(items) => item.0 + ": " + dump.flowList(items)
    case _ => item.0 + ": " + dump.scalar(item.1)
  }

  /** The lines of a header, item by item. */
  function Lines(h: Header, dump: YamlDump): (r: seq<string>)
    ensures |r| == |h|
    ensures forall i :: 0 <= i < |h| ==> r[i] == RenderLine(h[i], dump)
  {
    if h == [] then [] else Lines(h[..|h| - 1], dump) + [RenderLine(h[|h| - 1], dump)]
  }

  /** The text `frontmatter_to_yaml` returns. */
  function Serialize(h: Header, dump: YamlDump): string
  {
    JoinWith(Lines(h, dump), "\n")
  }

  /** `frontmatter_to_yaml`: the loop over the items appending one line each,
      then `"\n".join`. */
  method FrontmatterToYaml(h: Header, dump: YamlDump) returns (text: string)
    ensures text == JoinWith(Lines(h, dump), "\n")
  {
    var yamlLines: seq<string> := [];
    for i := 0 to |h|
      invariant yamlLines == Lines(h[..i], dump)
    {
      var (key, value) := h[i];
      var line: string;
      match value {
        case Str(s) =>
          line := key + ": \"" + s + "\"";
        case StrList(items) =>
          line := key + ": " + dump.flowList(items);
        case _ =>
          line := key + ": " + dump.scalar(value);
      }
      assert h[..i + 1][..i] == h[..i];
      yamlLines := yamlLines + [line];
    }
    assert h[..|h|] == h;
    text := JoinWith(yamlLines, "\n");
  }

  /** `str.split("\n")`: the pieces between newlines; at least one. */
  function SplitLines(s: string): (r: seq<string>)
    ensures |r| >= 1
  {
    if s == [] then [""]
    else
      var rest := SplitLines(s[1..]);
      if s[0] == '\n' then [""] + rest
      else [[s[0]] + rest[0]] + rest[1..]
  }

  predicate NoNewline(s: string)
  {
    forall i :: 0 <= i < |s| ==> s[i] != '\n'
  }

  lemma {:induction false} SplitOneLine(a: string)
    requires NoNewline(a)
    ensures SplitLines(a) == [a]
  {
    if a != [] {
      SplitOneLine(a[1..]);
      assert [a[0]] + a[1..] == a;
    }
  }

  lemma {:induction false} SplitFirstLine(a: string, b: string)
    requires NoNewline(a)
    ensures SplitLines(a + "\n" + b) == [a] + SplitLines(b)
  {
    if a == [] {
      assert a + "\n" + b == "\n" + b;
      assert ("\n" + b)[1..] == b;
    } else {
      var s := a + "\n" + b;
      assert s[0] == a[0];
      assert s[1..] == a[1..] + "\n" + b;
      SplitFirstLine(a[1..], b);
      assert [a[0]] + a[1..] == a;
    }
  }

  /** Splitting the joined lines gives the lines back, when none of them
      holds a newline of its own. */
  lemma {:induction false} SplitJoin(lines: seq<string>)
    requires |lines| >= 1
    requires forall i :: 0 <= i < |lines| ==> NoNewline(lines[i])
    ensures SplitLines(JoinWith(lines, "\n")) == lines
  {
    if |lines| == 1 {
      SplitOneLine(lines[0]);
    } else {
      SplitFirstLine(lines[0], JoinWith(lines[1..], "\n"));
      SplitJoin(lines[1..]);
      assert lines == [lines[0]] + lines[1..];
    }
  }

  /** Joining the pieces of a split gives the text back. */
  lemma {:induction false} JoinSplit(s: string)
    ensures JoinWith(SplitLines(s), "\n") == s
  {
    if s != [] {
      var rest := SplitLines(s[1..]);
      JoinSplit(s[1..]);
      if s[0] == '\n' {
        assert JoinWith([""] + rest, "\n") == "" + "\n" + JoinWith(rest, "\n") by {
          assert ([""] + rest)[1..] == rest;
        }
      } else {
        var first := [s[0]] + rest[0];
        if |rest| == 1 {
          assert JoinWith([first], "\n") == first;
        } else {
          assert ([first] + rest[1..])[1..] == rest[1..];
          assert JoinWith(rest, "\n") == rest[0] + "\n" + JoinWith(rest[1..], "\n");
        }
        assert s == [s[0]] + s[1..];
      }
    }
  }

  /** One line per key, in the header's order: read back line by line, the
      text is exactly the rendered items (when no rendered item holds a
      newline, e.g. a string value with an embedded line break). */
  lemma SerializedLines(h: Header, dump: YamlDump)
    requires |h| >= 1
    requires forall i :: 0 <= i < |h| ==> NoNewline(RenderLine(h[i], dump))
    ensures |SplitLines(Serialize(h, dump))| == |h|
    ensures forall i :: 0 <= i < |h| ==> SplitLines(Serialize(h, dump))[i] == RenderLine(h[i], dump)
  {
    SplitJoin(Lines(h, dump));
  }

  /** Every line starts with its key and `": "`. */
  lemma LineStartsWithKey(item: (string, Value), dump: YamlDump)
    ensures var line := RenderLine(item, dump);
            |line| >= |item.0| + 2 && line[..|item.0|] == item.0 && line[|item.0|..|item.0| + 2] == ": "
  {
  }

  /** A string value sits between two double quotes exactly as given: the
      text between the opening quote and the last character is the value,
      whatever quotes or backslashes it holds. */
  lemma StringVerbatim(key: string, s: string, dump: YamlDump)
    ensures var line := RenderLine((key, Str(s)), dump);
            |line| == |key| + |s| + 4 &&
            line[|key|..|key| + 3] == ": \"" &&
            line[|key| + 3..|line| - 1] == s &&
            line[|line| - 1] == '"'
  {
  }
}
