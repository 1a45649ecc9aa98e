/**
 `get_lsb_infos`: the distribution's code name and release, read from the
 `KEY=value` lines of `/etc/lsb-release` for the window's subtitle.
 */
module LsbRelease {
  import opened Wrappers
  import opened PyStr

  const DistribPrefix: string := "DISTRIB_"

  /** The exceptions that escape `get_lsb_infos`. */
  datatype PyError = ValueError | KeyError(key: string)

  /** What a call gives its caller: the pair it returns, or the exception it raises. */
  datatype LsbOutcome = Infos(codename: string, release: string) | Raises(error: PyError)

  /** What one line contributes to the dictionary. */
  datatype LineEffect = Ignored | Malformed | Entry(key: string, value: string)

  /** `var[8:]` when the key starts with "DISTRIB_". */
  function StripKey(key: string): string {
    if StartsWith(key, DistribPrefix) then key[|DistribPrefix|..] else key
  }

  /** `arg[1:-1]` when the value starts and ends with a double quote. */
  function Unquote(arg: string): string {
    if StartsWith(arg, "\"") && EndsWith(arg, "\"") then Inner(arg) else arg
  }

  /**
   One iteration of the loop over the file's lines: a line without '=' is
   skipped, a line whose stripped text does not split into exactly two pieces
   raises `ValueError` in the unpacking, and an empty value is dropped.
   */
  function ParseLine(line: string): LineEffect {
    if '=' !in line then Ignored
    else
      var parts := Split(RStrip(line), '=');
      if |parts| != 2 then Malformed
      else
        var key := StripKey(parts[0]);
        var value := Unquote(parts[1]);
        if value == "" then Ignored else Entry(key, value)
  }

  /** The dictionary after one more line, or `None` when that line raises. */
  function Apply(lsb: map<string, string>, effect: LineEffect): Option<map<string, string>> {
    match effect
    case Ignored => Some(lsb)
    case Malformed => None
    case Entry(key, value) => Some(lsb[key := value])
  }

  /** The dictionary after the given lines, or `None` once `ValueError` was raised. */
  function Parse(lines: seq<string>): Option<map<string, string>>
    decreases |lines|
  {
    if lines == [] then Some(map[])
    else
      match Parse(lines[..|lines| - 1])
      case None => None
      case Some(lsb) => Apply(lsb, ParseLine(lines[|lines| - 1]))
  }

  /**
   The whole call. `file` holds the lines of `/etc/lsb-release` as Python
   iterates them (line terminators included), or `None` when opening or
   reading raises `OSError`. The final lookups stand outside the `try`, so a
   missing key raises `KeyError` to the caller.
   */
  function LsbInfos(file: Option<seq<string>>): LsbOutcome {
    match file
    case None => Infos("not Manjaro", "0.0")
    case Some(lines) =>
      match Parse(lines)
      case None => Raises(ValueError)
      case Some(lsb) =>
        if "CODENAME" !in lsb then Raises(KeyError("CODENAME"))
        else if "RELEASE" !in lsb then Raises(KeyError("RELEASE"))
        else Infos(lsb["CODENAME"], lsb["RELEASE"])
  }

  /** Once `ValueError` was raised, later lines change nothing. */
  lemma {:induction false} ParseStaysFailed(lines: seq<string>, n: nat)
    requires n <= |lines| && Parse(lines[..n]).None?
    ensures Parse(lines).None?
    decreases |lines| - n
  {
    if n < |lines| {
      assert lines[..n + 1][..n] == lines[..n];
      ParseStaysFailed(lines, n + 1);
    } else {
      assert lines[..n] == lines;
    }
  }

  /** The loop of `get_lsb_infos`, filling the dictionary line by line. */
  method GetLsbInfos(file: Option<seq<string>>) returns (r: LsbOutcome)
    ensures r == LsbInfos(file)
  {
    if file.None? {
      return Infos("not Manjaro", "0.0");
    }
    var lines := file.value;
    var lsb: map<string, string> := map[];
    var i := 0;
    while i < |lines|
      invariant 0 <= i <= |lines|
      invariant Parse(lines[..i]) == Some(lsb)
    {
      var line := lines[i];
      assert lines[..i + 1][..i] == lines[..i] && lines[..i + 1][i] == line;
      if '=' in line {
        var parts := Split(RStrip(line), '=');
        if |parts| != 2 {
          ParseStaysFailed(lines, i + 1);
          return Raises(ValueError);
        }
        var key, arg := parts[0], parts[1];
        if StartsWith(key, DistribPrefix) {
          key := key[8..];
        }
        if StartsWith(arg, "\"") && EndsWith(arg, "\"") {
          arg := Inner(arg);
        }
        if arg != "" {
          lsb := lsb[key := arg];
        }
      }
      i := i + 1;
    }
    assert lines[..|lines|] == lines;
    if "CODENAME" !in lsb {
      return Raises(KeyError("CODENAME"));
    }
    if "RELEASE" !in lsb {
      return Raises(KeyError("RELEASE"));
    }
    r := Infos(lsb["CODENAME"], lsb["RELEASE"]);
  }

  /** An unreadable file gives the fixed pair. */
  lemma UnreadableFile()
    ensures LsbInfos(None) == Infos("not Manjaro", "0.0")
  {
  }

  /** A line without '=' leaves the dictionary as it was. */
  lemma LineWithoutEqualsIgnored(lines: seq<string>, line: string)
    requires '=' !in line
    ensures Parse(lines + [line]) == Parse(lines)
  {
    assert (lines + [line])[..|lines|] == lines;
  }

  /** A line raises `ValueError` exactly when it holds two or more '='. */
  lemma MalformedIff(line: string)
    ensures ParseLine(line).Malformed? <==> multiset(line)['='] >= 2
  {
    RStripKeepsCount(line, '=');
    SplitCount(RStrip(line), '=');
  }

  /**
   A line `key=value` (up to trailing whitespace) with one '=' enters its key
   without the "DISTRIB_" prefix and its value without one pair of surrounding
   quotes, unless that value is empty.
   */
  lemma AssignmentLine(line: string, key: string, value: string)
    requires RStrip(line) == key + "=" + value
    requires '=' !in key && '=' !in value
    ensures ParseLine(line) == if Unquote(value) == "" then Ignored else Entry(StripKey(key), Unquote(value))
  {
    var s := RStrip(line);
    assert s[|key|] == '=';
    assert '=' in line by { assert line[|key|] == '='; }
    assert multiset(s)['='] == 1 by {
      assert multiset(s) == multiset(key) + multiset{'='} + multiset(value);
    }
    SplitCount(s, '=');
    SplitJoin(s, '=');
    SplitPiecesFree(s, '=');
    var parts := Split(s, '=');
    assert Join(parts, '=') == parts[0] + "=" + parts[1];
    SeparatorUnique(parts[0], parts[1], key, value, '=');
  }

  /** The prefix "DISTRIB_" is removed from a key once. */
  lemma DistribPrefixStripped(name: string)
    ensures StripKey(DistribPrefix + name) == name
  {
    assert StartsWith(DistribPrefix + name, DistribPrefix);
  }

  /** One pair of surrounding double quotes is removed from a value. */
  lemma QuotesStripped(text: string)
    ensures Unquote("\"" + text + "\"") == text
  {
    var quoted := "\"" + text + "\"";
    assert StartsWith(quoted, "\"") && EndsWith(quoted, "\"");
    assert quoted[1..|quoted| - 1] == text;
  }

  /** A readable file that never enters CODENAME raises `KeyError`, not the fixed pair. */
  lemma MissingCodenameRaises(lines: seq<string>)
    requires Parse(lines).Some? && "CODENAME" !in Parse(lines).value
    ensures LsbInfos(Some(lines)) == Raises(KeyError("CODENAME"))
  {
  }

  /** A file shaped like Manjaro's own. */
  lemma ManjaroFile()
    ensures LsbInfos(Some(["DISTRIB_ID=Manjaro\n", "DISTRIB_RELEASE=21.0\n", "DISTRIB_CODENAME=\"Ornara\"\n"]))
            == Infos("Ornara", "21.0")
  {
    var l1, l2, l3 := "DISTRIB_ID=Manjaro\n", "DISTRIB_RELEASE=21.0\n", "DISTRIB_CODENAME=\"Ornara\"\n";
    IdLine();
    ReleaseLine();
    CodenameLine();
    var lines := [l1, l2, l3];
    assert lines[..2] == [l1, l2] && [l1, l2][..1] == [l1] && [l1][..0] == [];
    assert Parse([l1]) == Some(map["ID" := "Manjaro"]);
    assert Parse([l1, l2]) == Some(map["ID" := "Manjaro", "RELEASE" := "21.0"]);
  }

  lemma IdLine()
    ensures ParseLine("DISTRIB_ID=Manjaro\n") == Entry("ID", "Manjaro")
  {
    var line := "DISTRIB_ID=Manjaro\n";
    assert RStrip(line) == "DISTRIB_ID" + "=" + "Manjaro" by {
      assert line[..|line| - 1] == "DISTRIB_ID=Manjaro";
    }
    assert StripKey("DISTRIB_ID") == "ID" by {
      DistribPrefixStripped("ID");
      assert DistribPrefix + "ID" == "DISTRIB_ID";
    }
    assert Unquote("Manjaro") == "Manjaro" by {
      assert "Manjaro"[0] != '"' && "Manjaro"[..1] != "\"";
      assert !StartsWith("Manjaro", "\"");
    }
    AssignmentLine(line, "DISTRIB_ID", "Manjaro");
  }

  lemma ReleaseLine()
    ensures ParseLine("DISTRIB_RELEASE=21.0\n") == Entry("RELEASE", "21.0")
  {
    var line := "DISTRIB_RELEASE=21.0\n";
    assert RStrip(line) == "DISTRIB_RELEASE" + "=" + "21.0" by {
      assert line[..|line| - 1] == "DISTRIB_RELEASE=21.0";
    }
    assert StripKey("DISTRIB_RELEASE") == "RELEASE" by {
      DistribPrefixStripped("RELEASE");
      assert DistribPrefix + "RELEASE" == "DISTRIB_RELEASE";
    }
    assert Unquote("21.0") == "21.0" by {
      assert "21.0"[0] != '"' && "21.0"[..1] != "\"";
      assert !StartsWith("21.0", "\"");
    }
    AssignmentLine(line, "DISTRIB_RELEASE", "21.0");
  }

  lemma CodenameLine()
    ensures ParseLine("DISTRIB_CODENAME=\"Ornara\"\n") == Entry("CODENAME", "Ornara")
  {
    var line := "DISTRIB_CODENAME=\"Ornara\"\n";
    assert RStrip(line) == "DISTRIB_CODENAME" + "=" + "\"Ornara\"" by {
      assert line[..|line| - 1] == "DISTRIB_CODENAME=\"Ornara\"";
    }
    assert StripKey("DISTRIB_CODENAME") == "CODENAME" by {
      DistribPrefixStripped("CODENAME");
      assert DistribPrefix + "CODENAME" == "DISTRIB_CODENAME";
    }
    assert Unquote("\"Ornara\"") == "Ornara" by {
      QuotesStripped("Ornara");
      assert "\"" + "Ornara" + "\"" == "\"Ornara\"";
    }
    AssignmentLine(line, "DISTRIB_CODENAME", "\"Ornara\"");
  }

  /** `ValueError` is raised exactly when some line is malformed. */
  lemma {:induction false} ParseFailsIff(lines: seq<string>)
    ensures Parse(lines).None? <==> exists j :: 0 <= j < |lines| && ParseLine(lines[j]).Malformed?
    decreases |lines|
  {
    if lines != [] {
      var init := lines[..|lines| - 1];
      ParseFailsIff(init);
      assert forall j :: 0 <= j < |init| ==> init[j] == lines[j];
      if Parse(lines).None? && Parse(init).Some? {
        assert ParseLine(lines[|lines| - 1]).Malformed?;
      }
    }
  }

  /** What each line contributes, in file order. */
  function Effects(lines: seq<string>): (effects: seq<LineEffect>)
    ensures |effects| == |lines|
    ensures forall j :: 0 <= j < |lines| ==> effects[j] == ParseLine(lines[j])
    decreases |lines|
  {
    if lines == [] then [] else Effects(lines[..|lines| - 1]) + [ParseLine(lines[|lines| - 1])]
  }

  /** Effect `j` enters `key` into the dictionary. */
  predicate Defines(effects: seq<LineEffect>, j: int, key: string)
    requires 0 <= j < |effects|
  {
    effects[j].Entry? && effects[j].key == key
  }

  /**
   The value the last effect entering `key` gives it, found by reading the
   effects backwards; `None` when none enters `key`.
   */
  function LastValue(effects: seq<LineEffect>, key: string): Option<string>
    decreases |effects|
  {
    if effects == [] then None
    else
      var effect := effects[|effects| - 1];
      if effect.Entry? && effect.key == key then Some(effect.value)
      else LastValue(effects[..|effects| - 1], key)
  }

  /**
   Later lines override earlier ones: a key is in the dictionary exactly when
   some line enters it, with the value entered by the last such line.
   */
  lemma {:induction false} LastLineWins(lines: seq<string>, lsb: map<string, string>, key: string)
    requires Parse(lines) == Some(lsb)
    ensures key in lsb <==> LastValue(Effects(lines), key).Some?
    ensures key in lsb ==> LastValue(Effects(lines), key) == Some(lsb[key])
    decreases |lines|
  {
    if lines != [] {
      var n := |lines| - 1;
      var before := Parse(lines[..n]).value;
      assert Apply(before, ParseLine(lines[n])) == Some(lsb);
      LastLineWins(lines[..n], before, key);
      assert Effects(lines)[..n] == Effects(lines[..n]);
    }
  }

  /**
   `LastValue` is the value of the last effect entering the key: that effect
   exists and no later one enters the key; with no such effect it is `None`.
   */
  lemma {:induction false} LastValueIsLast(effects: seq<LineEffect>, key: string)
    ensures LastValue(effects, key).None? ==> forall j :: 0 <= j < |effects| ==> !Defines(effects, j, key)
    ensures LastValue(effects, key).Some? ==>
              exists j :: 0 <= j < |effects| && effects[j] == Entry(key, LastValue(effects, key).value)
                          && forall k :: j < k < |effects| ==> !Defines(effects, k, key)
    decreases |effects|
  {
    if effects != [] {
      var n := |effects| - 1;
      var init := effects[..n];
      LastValueIsLast(init, key);
      assert forall j :: 0 <= j < n ==> Defines(init, j, key) == Defines(effects, j, key);
      if !Defines(effects, n, key) {
        if LastValue(init, key).Some? {
          var j :| 0 <= j < n && init[j] == Entry(key, LastValue(init, key).value)
                   && forall k :: j < k < n ==> !Defines(init, k, key);
          forall k | j < k < |effects| ensures !Defines(effects, k, key) {
            if k < n {
              assert !Defines(init, k, key);
            }
          }
        }
      }
    }
  }
}
