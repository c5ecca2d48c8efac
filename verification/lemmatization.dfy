/**
 * `load_lemmas` (vjp/lemmatization/__init__.py, and the copy in
 * vjp/lemmatization.py, whose parse-and-update body is the same), starting
 * from the lines already read from the file: every `lemma<TAB>form` line maps form to lemma, then every lemma is
 * made to map to itself.
 */
module Lemmatization {
  import opened Wrappers
  import Text

  const Tab: char := '\t'

  /** `dict()` refuses the element of line `index`: it split into `fields` fields, not 2. */
  datatype LoadError = MalformedLine(index: nat, fields: nat)

  /** Number of tabs in `s`. */
  function Tabs(s: string): nat {
    if |s| == 0 then 0
    else Tabs(s[..|s| - 1]) + (if s[|s| - 1] == Tab then 1 else 0)
  }

  /** `s.split('\t')`. */
  function Fields(s: string): (fields: seq<string>)
    ensures |fields| == Tabs(s) + 1
  {
    if |s| == 0 then [""]
    else
      var init := Fields(s[..|s| - 1]);
      var c := s[|s| - 1];
      if c == Tab then init + [""]
      else init[..|init| - 1] + [init[|init| - 1] + [c]]
  }

  /** `'\t'.join(fields)`. */
  function JoinTab(fields: seq<string>): string
    requires |fields| > 0
  {
    if |fields| == 1 then fields[0]
    else JoinTab(fields[..|fields| - 1]) + [Tab] + fields[|fields| - 1]
  }

  /** Splitting on tabs loses nothing: the fields hold no tab and rejoin to the line. */
  lemma {:induction false} FieldsRejoin(s: string)
    ensures JoinTab(Fields(s)) == s
    ensures forall j :: 0 <= j < |Fields(s)| ==> Tab !in Fields(s)[j]
  {
    if |s| > 0 {
      var s', c := s[..|s| - 1], s[|s| - 1];
      assert s == s' + [c];
      FieldsRejoin(s');
      FieldsSnoc(s', c);
      var init := Fields(s');
      var r := Fields(s);
      if c == Tab {
        assert r[..|r| - 1] == init;
      } else {
        RejoinExtended(init, c);
        forall j | 0 <= j < |r| ensures Tab !in r[j] {
          if j < |r| - 1 {
            assert r[j] == init[j];
          }
        }
      }
    }
  }

  /** Extending the last field by a character extends the joined line by it. */
  lemma RejoinExtended(fields: seq<string>, c: char)
    requires |fields| > 0
    ensures JoinTab(fields[..|fields| - 1] + [fields[|fields| - 1] + [c]]) == JoinTab(fields) + [c]
  {
    var r := fields[..|fields| - 1] + [fields[|fields| - 1] + [c]];
    assert r[..|r| - 1] == fields[..|fields| - 1];
  }

  lemma {:induction false} FieldsOfTabFree(s: string)
    requires Tab !in s
    ensures Fields(s) == [s]
  {
    if |s| > 0 {
      FieldsOfTabFree(s[..|s| - 1]);
      assert s[..|s| - 1] + [s[|s| - 1]] == s;
    }
  }

  /** Appending one character to a line extends its last field or opens a new one. */
  lemma FieldsSnoc(s: string, c: char)
    ensures Fields(s + [c]) ==
      if c == Tab then Fields(s) + [""]
      else Fields(s)[..|Fields(s)| - 1] + [Fields(s)[|Fields(s)| - 1] + [c]]
  {
    assert (s + [c])[..|s|] == s;
  }

  lemma {:induction false} FieldsAfterTab(a: string, b: string)
    ensures Fields(a + [Tab] + b) == Fields(a) + Fields(b)
  {
    if |b| == 0 {
      assert a + [Tab] + b == a + [Tab];
      FieldsSnoc(a, Tab);
    } else {
      var b', c := b[..|b| - 1], b[|b| - 1];
      var s' := a + [Tab] + b';
      assert a + [Tab] + b == s' + [c];
      assert b == b' + [c];
      FieldsAfterTab(a, b');
      FieldsSnoc(s', c);
      FieldsSnoc(b', c);
      var fa, fb := Fields(a), Fields(b');
      if c == Tab {
        assert Fields(s' + [c]) == fa + fb + [""];
        assert fa + fb + [""] == fa + (fb + [""]);
      } else {
        FieldsAfterTabStep(fa, fb, c);
      }
      assert Fields(a + [Tab] + b) == Fields(s' + [c]);
    }
  }

  /** The step of `FieldsAfterTab`, on the field lists alone. */
  lemma FieldsAfterTabStep(fa: seq<string>, fb: seq<string>, c: char)
    requires |fb| > 0
    ensures var fs := fa + fb;
      fs[..|fs| - 1] + [fs[|fs| - 1] + [c]] == fa + (fb[..|fb| - 1] + [fb[|fb| - 1] + [c]])
  {
    var fs := fa + fb;
    assert fs[..|fs| - 1] == fa + fb[..|fb| - 1];
  }

  /** A parsed line: `reversed(line.split('\t'))` as a key/value pair. */
  datatype Entry = Entry(form: string, headword: string)

  /** The pair a line contributes, or None when it does not split into exactly two fields. */
  function ParseLine(line: string): Option<Entry> {
    var fields := Fields(line);
    if |fields| == 2 then Some(Entry(fields[1], fields[0])) else None
  }

  /**
   * A line parses iff it holds exactly one tab; it then reads `headword<TAB>form`
   * and contributes `form -> lemma`.
   */
  lemma ParseLineSpec(line: string, form: string, headword: string)
    ensures ParseLine(line).Some? <==> Tabs(line) == 1
    ensures ParseLine(line) == Some(Entry(form, headword)) <==>
      line == headword + [Tab] + form && Tab !in headword && Tab !in form
  {
    FieldsRejoin(line);
    var fields := Fields(line);
    if |fields| == 2 {
      assert fields[..1] == [fields[0]];
      assert JoinTab(fields) == fields[0] + [Tab] + fields[1];
    }
    if line == headword + [Tab] + form && Tab !in headword && Tab !in form {
      FieldsAfterTab(headword, form);
      FieldsOfTabFree(headword);
      FieldsOfTabFree(form);
    }
  }

  /** `dict(reversed(line.split('\t')) for line in lines)`: later lines override earlier ones. */
  function FormMap(lines: seq<string>): Result<map<string, string>, LoadError> {
    if |lines| == 0 then Success(map[])
    else
      match FormMap(lines[..|lines| - 1])
      case Failure(e) => Failure(e)
      case Success(m) =>
        match ParseLine(lines[|lines| - 1])
        case None => Failure(MalformedLine(|lines| - 1, |Fields(lines[|lines| - 1])|))
        case Some(e) => Success(m[e.form := e.headword])
  }

  /**
   * `keys_dict = dict(zip(values, values))` followed by `update(keys_dict)`:
   * every lemma now maps to itself, every other form keeps its lemma, and
   * the result is idempotent.
   */
  function FixLemmas(m: map<string, string>): (d: map<string, string>)
    ensures d.Keys == m.Keys + m.Values
    ensures forall v :: v in m.Values ==> d[v] == v
    ensures forall k :: k in m && k !in m.Values ==> d[k] == m[k]
    ensures forall k :: k in d ==> d[k] in d && d[d[k]] == d[k]
  {
    var keysDict := map v | v in m.Values :: v;
    m + keysDict
  }

  /** What `load_lemmas` returns for the file's lines, or the error `dict()` raises. */
  function LemmaDict(lines: seq<string>): Result<map<string, string>, LoadError> {
    match FormMap(lines)
    case Failure(e) => Failure(e)
    case Success(m) => Success(FixLemmas(m))
  }

  /** `load_lemmas`, from the lines already read: build the dictionary, then update it in place. */
  method LoadLemmas(lines: seq<string>) returns (result: Result<map<string, string>, LoadError>)
    ensures result == LemmaDict(lines)
  {
    var lemmasDict: map<string, string> := map[];
    for i := 0 to |lines|
      invariant FormMap(lines[..i]) == Success(lemmasDict)
    {
      assert lines[..i + 1][..i] == lines[..i];
      var fields := Fields(lines[i]);
      if |fields| != 2 {
        FailurePersists(lines, i + 1);
        return Failure(MalformedLine(i, |fields|));
      }
      lemmasDict := lemmasDict[fields[1] := fields[0]];
    }
    assert lines[..|lines|] == lines;
    var keysDict := map v | v in lemmasDict.Values :: v;
    lemmasDict := lemmasDict + keysDict;
    result := Success(lemmasDict);
  }

  lemma {:induction false} FailurePersists(lines: seq<string>, j: nat)
    requires j <= |lines| && FormMap(lines[..j]).Failure?
    ensures FormMap(lines) == FormMap(lines[..j])
    decreases |lines| - j
  {
    if j < |lines| {
      assert lines[..j + 1][..j] == lines[..j];
      FailurePersists(lines, j + 1);
    } else {
      assert lines[..j] == lines;
    }
  }

  /** Every line splits into exactly two fields. */
  predicate WellFormed(lines: seq<string>) {
    forall i :: 0 <= i < |lines| ==> |Fields(lines[i])| == 2
  }

  /** Construction fails iff some line does not split into exactly two fields. */
  lemma {:induction false} LoadSucceedsIffWellFormed(lines: seq<string>)
    ensures FormMap(lines).Success? <==> WellFormed(lines)
    ensures LemmaDict(lines).Success? <==> WellFormed(lines)
  {
    if |lines| > 0 {
      var init := lines[..|lines| - 1];
      LoadSucceedsIffWellFormed(init);
      assert forall i :: 0 <= i < |init| ==> init[i] == lines[i];
    }
  }

  /** On failure the error names the first line that does not split into two fields. */
  lemma {:induction false} LoadFailsOnFirstMalformedLine(lines: seq<string>)
    requires FormMap(lines).Failure?
    ensures FormMap(lines).error.index < |lines|
    ensures |Fields(lines[FormMap(lines).error.index])| == FormMap(lines).error.fields != 2
    ensures WellFormed(lines[..FormMap(lines).error.index])
  {
    var init := lines[..|lines| - 1];
    if FormMap(init).Failure? {
      LoadFailsOnFirstMalformedLine(init);
      var i := FormMap(init).error.index;
      assert init[..i] == lines[..i];
      assert init[i] == lines[i];
    } else {
      LoadSucceedsIffWellFormed(init);
    }
  }

  /** The form a well-formed line contributes: its second field. */
  function Form(line: string): string
    requires |Fields(line)| == 2
  {
    Fields(line)[1]
  }

  /** The lemma a well-formed line contributes: its first field. */
  function LemmaOf(line: string): string
    requires |Fields(line)| == 2
  {
    Fields(line)[0]
  }

  function Forms(lines: seq<string>): set<string>
    requires WellFormed(lines)
  {
    set i | 0 <= i < |lines| :: Form(lines[i])
  }

  lemma FormsSnoc(lines: seq<string>)
    requires |lines| > 0 && WellFormed(lines)
    ensures WellFormed(lines[..|lines| - 1])
    ensures Forms(lines) == Forms(lines[..|lines| - 1]) + {Form(lines[|lines| - 1])}
  {
    var init := lines[..|lines| - 1];
    assert forall i :: 0 <= i < |init| ==> init[i] == lines[i];
    forall k | k in Forms(lines) ensures k in Forms(init) + {Form(lines[|lines| - 1])} {
      var i :| 0 <= i < |lines| && Form(lines[i]) == k;
      if i < |init| {
        assert Form(init[i]) == k;
      }
    }
  }

  /** The first map has exactly the forms as keys. */
  lemma {:induction false} FormMapKeys(lines: seq<string>)
    requires WellFormed(lines)
    ensures FormMap(lines).Success?
    ensures FormMap(lines).value.Keys == Forms(lines)
  {
    LoadSucceedsIffWellFormed(lines);
    if |lines| > 0 {
      FormsSnoc(lines);
      FormMapKeys(lines[..|lines| - 1]);
    }
  }

  /** A well-formed last line adds its own pair to the map of the lines before it. */
  lemma FormMapSnoc(lines: seq<string>)
    requires |lines| > 0 && WellFormed(lines)
    ensures WellFormed(lines[..|lines| - 1])
    ensures FormMap(lines).Success? && FormMap(lines[..|lines| - 1]).Success?
    ensures FormMap(lines).value ==
      FormMap(lines[..|lines| - 1]).value[Form(lines[|lines| - 1]) := LemmaOf(lines[|lines| - 1])]
  {
    FormsSnoc(lines);
    LoadSucceedsIffWellFormed(lines);
    LoadSucceedsIffWellFormed(lines[..|lines| - 1]);
  }

  /** The form of a line maps to that line's lemma unless a later line repeats the form. */
  lemma {:induction false} LastLineWins(lines: seq<string>, i: nat)
    requires WellFormed(lines) && i < |lines|
    requires forall j :: i < j < |lines| ==> Form(lines[j]) != Form(lines[i])
    ensures FormMap(lines).Success? && Form(lines[i]) in FormMap(lines).value
    ensures FormMap(lines).value[Form(lines[i])] == LemmaOf(lines[i])
  {
    var last := |lines| - 1;
    var init := lines[..last];
    FormMapSnoc(lines);
    if i < last {
      assert forall j :: 0 <= j < |init| ==> init[j] == lines[j];
      LastLineWins(init, i);
    }
  }

  /**
   * The returned dictionary: its keys are the forms and the surviving lemmas,
   * a surviving lemma maps to itself, and looking a result up again changes
   * nothing, which is what lemmatizing a text twice relies on.
   */
  lemma LoadedDictionary(lines: seq<string>)
    requires WellFormed(lines)
    ensures LemmaDict(lines).Success?
    ensures LemmaDict(lines).value.Keys == Forms(lines) + FormMap(lines).value.Values
    ensures forall v :: v in FormMap(lines).value.Values ==> LemmaDict(lines).value[v] == v
    ensures Text.Idempotent(LemmaDict(lines).value)
  {
    LoadSucceedsIffWellFormed(lines);
    FormMapKeys(lines);
  }

  /** A form that is no surviving lemma maps to the lemma of its last line. */
  lemma LoadedLemmaOfLine(lines: seq<string>, i: nat)
    requires WellFormed(lines) && i < |lines|
    requires forall j :: i < j < |lines| ==> Form(lines[j]) != Form(lines[i])
    ensures FormMap(lines).Success? && LemmaDict(lines).Success?
    ensures Form(lines[i]) in LemmaDict(lines).value
    ensures Form(lines[i]) !in FormMap(lines).value.Values ==>
      LemmaDict(lines).value[Form(lines[i])] == LemmaOf(lines[i])
  {
    LoadSucceedsIffWellFormed(lines);
    LastLineWins(lines, i);
  }

  /**
   * A lemma whose every line is overridden disappears: with the lines
   * `a<TAB>x` and `b<TAB>x` the form x maps to b, b maps to itself, and a is
   * not a key.
   */
  lemma OverriddenLemmaIsDropped()
    ensures LemmaDict(["a\tx", "b\tx"]) == Success(map["x" := "b", "b" := "b"])
  {
    var m := map["x" := "b"];
    ExampleFormMap();
    SingletonValues("x", "b");
    var d := FixLemmas(m);
    assert d.Keys == {"x", "b"};
    assert d == map["x" := "b", "b" := "b"];
  }

  lemma SingletonValues(k: string, v: string)
    ensures map[k := v].Values == {v}
  {
    var m := map[k := v];
    assert m[k] == v;
    forall w | w in m.Values ensures w == v {
      var k' :| k' in m && m[k'] == w;
    }
  }

  lemma ExampleFormMap()
    ensures FormMap(["a\tx", "b\tx"]) == Success(map["x" := "b"])
  {
    ParseLineSpec("a\tx", "x", "a");
    ParseLineSpec("b\tx", "x", "b");
    var lines := ["a\tx", "b\tx"];
    assert lines[..1] == ["a\tx"] && lines[..1][..0] == [];
    assert FormMap(lines[..1]) == Success(map["x" := "a"]);
    assert ParseLine(lines[1]) == Some(Entry("x", "b"));
    assert map["x" := "a"]["x" := "b"] == map["x" := "b"];
  }

  /** An empty line splits into one field, so construction fails on it. */
  lemma EmptyLineFails(lines: seq<string>, i: nat)
    requires i < |lines| && lines[i] == ""
    ensures LemmaDict(lines).Failure?
  {
    LoadSucceedsIffWellFormed(lines);
    assert |Fields(lines[i])| == 1;
  }
}
