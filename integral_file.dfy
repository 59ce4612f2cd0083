/**
 * parse_integral_file: reads a text file of `Integral of <name>: <value>`
 * (or `<name>: <value>`) lines into a record from name to value.
 */
module IntegralFile {
  import opened Wrappers
  import opened Strings
  import opened Numbers

  /** An IntegralRecord: variable name to value. */
  type Record = map<string, real>

  /** The label removed from every key. */
  const Label: string := "Integral of "

  /** The file system the script opens files in: name to contents. */
  type FileSystem = map<string, string>

  /** The two ways parse_integral_file ends the process. */
  datatype FileError =
    | NotFound(file: string)
    | BadValue(file: string, text: string)

  /** What one line contributes. */
  datatype Entry =
    | Skip
    | Pair(key: string, value: real)
    | Bad(text: string)

  /** The key of a line: text before the first colon, every "Integral of "
      removed, then stripped. */
  function KeyOf(d: Dialect, line: string): string
  {
    Strip(d, RemoveAll(Split(line, ':')[0], Label))
  }

  /** The value text of a colon line: the piece between the first and the
      second colon, stripped. */
  function ValueTextOf(d: Dialect, line: string): string
    requires ':' in line
  {
    Strip(d, Split(line, ':')[1])
  }

  /** One iteration of the `for line in f` loop. */
  function LineEntry(d: Dialect, line: string): (e: Entry)
    ensures e.Skip? <==> ':' !in line
    ensures e.Pair? ==> ':' !in e.key && NoEdgeSpace(d, e.key)
    ensures e.Bad? ==> NoEdgeSpace(d, e.text) && ParseNumber(e.text) == None
  {
    if ':' !in line then Skip
    else
      var text := ValueTextOf(d, line);
      match ParseNumber(text)
      case None => Bad(text)
      case Some(v) => Pair(KeyOf(d, line), v)
  }

  /** What every line of a file contributes, in order. */
  function Entries(d: Dialect, lines: seq<string>): (es: seq<Entry>)
    ensures |es| == |lines|
  {
    Map((line: string) => LineEntry(d, line), lines)
  }

  /** f applied to every element of s, in order. */
  function Map<A, B>(f: A -> B, s: seq<A>): (r: seq<B>)
    ensures |r| == |s|
  {
    if s == [] then [] else Map(f, s[..|s| - 1]) + [f(s[|s| - 1])]
  }

  lemma {:induction false} MapAt<A, B>(f: A -> B, s: seq<A>, i: nat)
    requires i < |s|
    ensures Map(f, s)[i] == f(s[i])
  {
    if i < |s| - 1 {
      MapAt(f, s[..|s| - 1], i);
    }
  }

  /** Entry i is what line i contributes. */
  lemma EntryAt(d: Dialect, lines: seq<string>, i: nat)
    requires i < |lines|
    ensures Entries(d, lines)[i] == LineEntry(d, lines[i])
  {
    MapAt((line: string) => LineEntry(d, line), lines, i);
  }

  /** Every entry is what its line contributes. */
  lemma EntriesAt(d: Dialect, lines: seq<string>)
    ensures forall i :: 0 <= i < |lines| ==> Entries(d, lines)[i] == LineEntry(d, lines[i])
  {
    forall i | 0 <= i < |lines|
      ensures Entries(d, lines)[i] == LineEntry(d, lines[i])
    {
      EntryAt(d, lines, i);
    }
  }

  /** The dictionary after processing the entries in order, or the value text
      of the first bad entry; a failure discards the dictionary. */
  function Build(es: seq<Entry>): Result<Record, string>
  {
    if es == [] then Ok(map[])
    else
      match Build(es[..|es| - 1])
      case Err(t) => Err(t)
      case Ok(data) =>
        match es[|es| - 1]
        case Skip => Ok(data)
        case Bad(t) => Err(t)
        case Pair(k, v) => Ok(data[k := v])
  }

  /** The outcome of parsing the lines of an open file. */
  function ParseSpec(d: Dialect, lines: seq<string>): Result<Record, string>
  {
    Build(Entries(d, lines))
  }

  /** The keys carried by the entries. */
  function EntryKeys(es: seq<Entry>): set<string>
  {
    set i | 0 <= i < |es| && es[i].Pair? :: es[i].key
  }

  /** The keys of all colon lines. */
  function KeysOfLines(d: Dialect, lines: seq<string>): set<string>
  {
    EntryKeys(Entries(d, lines))
  }

  /** The body of the `for line in f` loop, up to the store: a line
      without a colon is skipped; otherwise the key and the value text are
      cut out and the value is converted. */
  method ReadEntry(d: Dialect, line: string) returns (e: Entry)
    ensures e == LineEntry(d, line)
  {
    if ':' !in line {
      return Skip;
    }
    var key := KeyOf(d, line);
    var text := ValueTextOf(d, line);
    var value := ParseNumber(text);
    if value.None? {
      e := Bad(text);
    } else {
      e := Pair(key, value.value);
    }
  }

  /** The loop of parse_integral_file over the lines of an open file. */
  method ParseLines(d: Dialect, lines: seq<string>) returns (res: Result<Record, string>)
    ensures res == ParseSpec(d, lines)
  {
    ghost var es := Entries(d, lines);
    var data: Record := map[];
    var i := 0;
    while i < |lines|
      invariant 0 <= i <= |lines|
      invariant Build(es[..i]) == Ok(data)
    {
      var e := ReadEntry(d, lines[i]);
      EntryAt(d, lines, i);
      if e.Bad? {
        BadEntryStops(es, i, data);
        return Err(e.text);
      }
      GoodEntryStep(es, i, data);
      if e.Pair? {
        data := data[e.key := e.value];
      }
      i := i + 1;
    }
    assert es[..i] == es;
    res := Ok(data);
  }

  /** Processing entry i after the ones before it. */
  lemma BuildStep(es: seq<Entry>, i: nat, data: Record)
    requires i < |es| && Build(es[..i]) == Ok(data)
    ensures Build(es[..i + 1]) == match es[i]
                                  case Skip => Ok(data)
                                  case Bad(t) => Err(t)
                                  case Pair(k, v) => Ok(data[k := v])
  {
    assert es[..i + 1][..i] == es[..i];
    assert es[..i + 1][i] == es[i];
  }

  /** A skipped entry keeps the dictionary; a pair stores its value. */
  lemma GoodEntryStep(es: seq<Entry>, i: nat, data: Record)
    requires i < |es| && Build(es[..i]) == Ok(data) && !es[i].Bad?
    ensures Build(es[..i + 1]) == Ok(if es[i].Pair? then data[es[i].key := es[i].value] else data)
  {
    BuildStep(es, i, data);
  }

  /** A bad entry after a successful prefix decides the whole outcome. */
  lemma BadEntryStops(es: seq<Entry>, i: nat, data: Record)
    requires i < |es| && Build(es[..i]) == Ok(data) && es[i].Bad?
    ensures Build(es) == Err(es[i].text)
  {
    BuildStep(es, i, data);
    BuildAbortsAfterBad(es, i + 1);
  }

  /** Once a prefix has failed, the whole parse fails with the same text. */
  lemma {:induction false} BuildAbortsAfterBad(es: seq<Entry>, n: nat)
    requires n <= |es|
    requires Build(es[..n]).Err?
    ensures Build(es) == Build(es[..n])
    decreases |es| - n
  {
    if n < |es| {
      assert es[..n + 1][..n] == es[..n];
      BuildAbortsAfterBad(es, n + 1);
    } else {
      assert es[..n] == es;
    }
  }

  /** A Skip entry, wherever it stands, changes nothing. */
  lemma {:induction false} BuildSkipIgnored(a: seq<Entry>, b: seq<Entry>)
    ensures Build(a + [Skip] + b) == Build(a + b)
    decreases |b|
  {
    if b == [] {
      assert a + [Skip] + b == a + [Skip];
      assert (a + [Skip])[..|a|] == a;
      assert a + b == a;
    } else {
      var b' := b[..|b| - 1];
      BuildSkipIgnored(a, b');
      assert (a + [Skip] + b)[..|a + [Skip] + b| - 1] == a + [Skip] + b';
      assert (a + b)[..|a + b| - 1] == a + b';
      assert (a + [Skip] + b)[|a + [Skip] + b| - 1] == b[|b| - 1];
      assert (a + b)[|a + b| - 1] == b[|b| - 1];
    }
  }

  /** A line without a colon, wherever it stands, changes nothing. */
  lemma ColonFreeLineIgnored(d: Dialect, a: seq<string>, line: string, b: seq<string>)
    requires ':' !in line
    ensures ParseSpec(d, a + [line] + b) == ParseSpec(d, a + b)
  {
    EntriesAppend(d, a + [line], b);
    EntriesAppend(d, a, [line]);
    EntriesAppend(d, a, b);
    assert Entries(d, [line]) == [Skip];
    BuildSkipIgnored(Entries(d, a), Entries(d, b));
  }

  lemma EntriesAppend(d: Dialect, a: seq<string>, b: seq<string>)
    ensures Entries(d, a + b) == Entries(d, a) + Entries(d, b)
  {
    var es, ea, eb := Entries(d, a + b), Entries(d, a), Entries(d, b);
    EntriesAt(d, a + b);
    EntriesAt(d, a);
    EntriesAt(d, b);
    forall i | 0 <= i < |es|
      ensures es[i] == (ea + eb)[i]
    {
      if i < |a| {
        assert (a + b)[i] == a[i];
      } else {
        assert (a + b)[i] == b[i - |a|];
      }
    }
  }

  lemma EntryKeysSnoc(es: seq<Entry>)
    requires es != []
    ensures var e := es[|es| - 1];
            EntryKeys(es) == EntryKeys(es[..|es| - 1]) + (if e.Pair? then {e.key} else {})
  {
    var init := es[..|es| - 1];
    forall k | k in EntryKeys(init)
      ensures k in EntryKeys(es)
    {
      var i :| 0 <= i < |init| && init[i].Pair? && init[i].key == k;
      assert es[i] == init[i];
    }
  }

  /** The dictionary holds exactly the keys of the Pair entries. */
  lemma {:induction false} BuildKeys(es: seq<Entry>, data: Record)
    requires Build(es) == Ok(data)
    ensures data.Keys == EntryKeys(es)
  {
    if es != [] {
      var prev :| Build(es[..|es| - 1]) == Ok(prev);
      BuildKeys(es[..|es| - 1], prev);
      EntryKeysSnoc(es);
    }
  }

  /** The record holds exactly the keys of the colon lines. */
  lemma ParsedKeys(d: Dialect, lines: seq<string>, data: Record)
    requires ParseSpec(d, lines) == Ok(data)
    ensures data.Keys == KeysOfLines(d, lines)
    ensures forall k :: k in data <==> exists i :: 0 <= i < |lines| && LineEntry(d, lines[i]).Pair? && LineEntry(d, lines[i]).key == k
  {
    var es := Entries(d, lines);
    EntriesAt(d, lines);
    BuildKeys(es, data);
    forall k | k in data
      ensures exists i :: 0 <= i < |lines| && LineEntry(d, lines[i]).Pair? && LineEntry(d, lines[i]).key == k
    {
      var i :| 0 <= i < |es| && es[i].Pair? && es[i].key == k;
      assert es[i] == LineEntry(d, lines[i]);
    }
    forall k, i | 0 <= i < |lines| && LineEntry(d, lines[i]).Pair? && LineEntry(d, lines[i]).key == k
      ensures k in data
    {
      assert es[i] == LineEntry(d, lines[i]);
    }
  }

  /** The value stored for a key is the one of the last entry with that key. */
  lemma {:induction false} BuildLastWins(es: seq<Entry>, data: Record, i: nat)
    requires Build(es) == Ok(data)
    requires i < |es| && es[i].Pair?
    requires forall j :: i < j < |es| ==> !(es[j].Pair? && es[j].key == es[i].key)
    ensures es[i].key in data && data[es[i].key] == es[i].value
  {
    var init := es[..|es| - 1];
    var prev :| Build(init) == Ok(prev);
    if i < |es| - 1 {
      assert init[i] == es[i];
      assert forall j :: i < j < |init| ==> init[j] == es[j];
      BuildLastWins(init, prev, i);
    }
  }

  /** The value stored for a key is the one on the last line with that key:
      a later duplicate overwrites an earlier one. */
  lemma LastLineWins(d: Dialect, lines: seq<string>, data: Record, i: nat)
    requires ParseSpec(d, lines) == Ok(data)
    requires i < |lines| && LineEntry(d, lines[i]).Pair?
    requires forall j :: i < j < |lines| ==> !(LineEntry(d, lines[j]).Pair? && LineEntry(d, lines[j]).key == LineEntry(d, lines[i]).key)
    ensures LineEntry(d, lines[i]).key in data
    ensures data[LineEntry(d, lines[i]).key] == LineEntry(d, lines[i]).value
  {
    EntriesAt(d, lines);
    BuildLastWins(Entries(d, lines), data, i);
  }

  /** Without a bad entry the build succeeds. */
  lemma {:induction false} BuildNoBad(es: seq<Entry>)
    requires forall j :: 0 <= j < |es| ==> !es[j].Bad?
    ensures Build(es).Ok?
  {
    if es != [] {
      var init := es[..|es| - 1];
      assert forall j :: 0 <= j < |init| ==> init[j] == es[j];
      BuildNoBad(init);
    }
  }

  /** The parse fails, with the value text of the first bad line, as soon as
      any colon line's value does not convert. */
  lemma FirstBadLineFails(d: Dialect, lines: seq<string>, i: nat)
    requires i < |lines| && LineEntry(d, lines[i]).Bad?
    requires forall j :: 0 <= j < i ==> !LineEntry(d, lines[j]).Bad?
    ensures ParseSpec(d, lines) == Err(LineEntry(d, lines[i]).text)
  {
    var es := Entries(d, lines);
    EntriesAt(d, lines);
    assert forall j :: 0 <= j < i ==> es[..i][j] == es[j];
    BuildNoBad(es[..i]);
    BuildStep(es, i, Build(es[..i]).value);
    BuildAbortsAfterBad(es, i + 1);
  }

  /** Without a bad line the parse succeeds. */
  lemma NoBadLineSucceeds(d: Dialect, lines: seq<string>)
    requires forall j :: 0 <= j < |lines| ==> !LineEntry(d, lines[j]).Bad?
    ensures ParseSpec(d, lines).Ok?
  {
    EntriesAt(d, lines);
    BuildNoBad(Entries(d, lines));
  }

  /** A failed build points at a bad entry. */
  lemma {:induction false} BuildFailureHasBad(es: seq<Entry>)
    requires Build(es).Err?
    ensures exists i :: 0 <= i < |es| && es[i] == Bad(Build(es).error)
  {
    var init := es[..|es| - 1];
    if Build(init).Err? {
      BuildFailureHasBad(init);
      var i :| 0 <= i < |init| && init[i] == Bad(Build(init).error);
      assert es[i] == init[i];
    }
  }

  /** A failed parse names the value text of a line that does not convert;
      no partial record is returned. */
  lemma FailureHasBadLine(d: Dialect, lines: seq<string>)
    requires ParseSpec(d, lines).Err?
    ensures exists i :: 0 <= i < |lines| && LineEntry(d, lines[i]) == Bad(ParseSpec(d, lines).error)
  {
    var es := Entries(d, lines);
    EntriesAt(d, lines);
    BuildFailureHasBad(es);
    var i :| 0 <= i < |es| && es[i] == Bad(Build(es).error);
    assert es[i] == LineEntry(d, lines[i]);
  }

  /** The outcome for a named file: missing, unparsable, or its record. */
  function ParseFile(d: Dialect, fs: FileSystem, name: string): Result<Record, FileError>
  {
    if name !in fs then Err(NotFound(name))
    else
      match ParseSpec(d, ReadLines(d, fs[name]))
      case Ok(data) => Ok(data)
      case Err(t) => Err(BadValue(name, t))
  }

  /** parse_integral_file(filename). */
  method ParseIntegralFile(d: Dialect, fs: FileSystem, name: string) returns (res: Result<Record, FileError>)
    ensures res == ParseFile(d, fs, name)
    ensures res == Err(NotFound(name)) <==> name !in fs
    ensures res.Err? ==> res.error.file == name
    ensures res.Ok? ==> res.value.Keys == KeysOfLines(d, ReadLines(d, fs[name]))
  {
    if name !in fs {
      return Err(NotFound(name));
    }
    var lines := ReadLines(d, fs[name]);
    var parsed := ParseLines(d, lines);
    match parsed
    case Ok(data) =>
      ParsedKeys(d, lines, data);
      res := Ok(data);
    case Err(t) =>
      res := Err(BadValue(name, t));
  }

  /** A line with one colon: the key comes from the text before it, the
      value text from the text after it. */
  lemma OneColonLine(d: Dialect, k: string, v: string)
    requires ':' !in k && ':' !in v
    ensures ':' in k + ":" + v
    ensures KeyOf(d, k + ":" + v) == Strip(d, RemoveAll(k, Label))
    ensures ValueTextOf(d, k + ":" + v) == Strip(d, v)
  {
    var line := k + ":" + v;
    assert Join([k, v], ':') == line;
    SplitJoin([k, v], ':');
    assert line[|k|] == ':';
  }

  /** A line as check_number_events_cmssw10.py writes it (lines 39-41),
      `<name>:<blanks><number><newline>`
      (the eleMult line has two blanks): the blanks and the line terminator
      reach neither the key nor the value. */
  lemma NameValueLine(d: Dialect, name: string, pad: string, num: string, eol: string)
    requires ':' !in name && NoEdgeSpace(d, name)
    requires forall i :: 0 <= i <= |name| - |Label| ==> !OccursAt(Label, name, i)
    requires forall c :: c in pad ==> IsSpace(d, c)
    requires forall c :: c in eol ==> IsSpace(d, c)
    requires num != [] && ':' !in num && NoEdgeSpace(d, num)
    ensures LineEntry(d, name + ":" + (pad + num + eol)) ==
              match ParseNumber(num)
              case None => Bad(num)
              case Some(x) => Pair(name, x)
  {
    var v := pad + num + eol;
    StripPadded(d, pad, num, eol);
    RemoveAllNoOccurrence(name, Label);
    StripUnpadded(d, name);
    PaddedHasNoColon(d, pad, num, eol);
    OneColonLine(d, name, v);
  }

  /** The same line with the `Integral of ` label in front of the name. */
  lemma LabelledNameValueLine(d: Dialect, name: string, pad: string, num: string, eol: string)
    requires ':' !in name && NoEdgeSpace(d, name)
    requires forall i :: 0 <= i <= |name| - |Label| ==> !OccursAt(Label, name, i)
    requires forall c :: c in pad ==> IsSpace(d, c)
    requires forall c :: c in eol ==> IsSpace(d, c)
    requires num != [] && ':' !in num && NoEdgeSpace(d, num)
    ensures LineEntry(d, (Label + name) + ":" + (pad + num + eol)) ==
              match ParseNumber(num)
              case None => Bad(num)
              case Some(x) => Pair(name, x)
  {
    var k := Label + name;
    var v := pad + num + eol;
    StripPadded(d, pad, num, eol);
    PaddedHasNoColon(d, pad, num, eol);
    LabelledKey(d, name);
    OneColonLine(d, k, v);
  }

  /** The label in front of a name is removed and the name is kept. */
  lemma LabelledKey(d: Dialect, name: string)
    requires ':' !in name && NoEdgeSpace(d, name)
    requires forall i :: 0 <= i <= |name| - |Label| ==> !OccursAt(Label, name, i)
    ensures ':' !in Label + name
    ensures Strip(d, RemoveAll(Label + name, Label)) == name
  {
    RemoveAllPrefix(Label, name);
    RemoveAllNoOccurrence(name, Label);
    StripUnpadded(d, name);
    assert ':' !in Label;
  }

  lemma PaddedHasNoColon(d: Dialect, pad: string, num: string, eol: string)
    requires forall c :: c in pad ==> IsSpace(d, c)
    requires forall c :: c in eol ==> IsSpace(d, c)
    requires ':' !in num
    ensures ':' !in pad + num + eol
  {
    NoSpaceIsColon(d, pad);
    NoSpaceIsColon(d, eol);
  }

  lemma NoSpaceIsColon(d: Dialect, s: string)
    requires forall c :: c in s ==> IsSpace(d, c)
    ensures ':' !in s
  {
    assert !IsSpace(d, ':');
  }

  /** A file both interpreters read alike: a line whose characters the two
      agree on as whitespace (plain ASCII without the control characters
      0x1C to 0x1F, say) gives the same entry under Python 2 and Python 3. */
  lemma DialectsAgreeOnLine(line: string)
    requires forall c :: c in line ==> (IsSpace(Python2, c) <==> IsSpace(Python3, c))
    ensures LineEntry(Python2, line) == LineEntry(Python3, line)
  {
    if ':' in line {
      var parts := Split(line, ':');
      var k := RemoveAll(parts[0], Label);
      assert forall c :: c in parts[0] ==> c in line;
      assert forall c :: c in parts[1] ==> c in line;
      StripDialectsAgree(k);
      StripDialectsAgree(parts[1]);
    }
  }
}
