/** The glossary store of the plugin: the text of the glossary file is a run
    of `term:=definition;\n` records; `AddToGlossary` adds a term to it only
    when no record of the file already carries exactly that term. */
module Glossary {
  import opened JsString

  /** Separates records of the file. */
  const Delimiter := ";\n"
  /** Separates a record's term from its definition. */
  const Separator := ":="
  /** How JavaScript concatenation renders a missing definition. */
  const Undefined := "undefined"

  datatype Option<T> = None | Some(value: T)

  /** One record as destructured by `const [term, definition] = line.split(':=')`:
      `definition` is `None` (JavaScript `undefined`) when the line has no `:=`. */
  datatype Entry = Entry(term: string, definition: Option<string>)

  /** What the update callback produces: whether the term was found, and the
      text handed back to be written to the file. */
  datatype Outcome = Outcome(alreadyExists: bool, newContent: string)

  // ---------------------------------------------------------------------------
  // Parsing

  /** One fragment of the file parsed into a record: the term is the text
      before the first `:=`, the definition the text between the first and the
      second `:=`, and anything after a second `:=` is dropped. */
  function ParseEntry(line: string): Entry {
    var pieces := Split(line, Separator);
    if |pieces| == 1 then Entry(pieces[0], None) else Entry(pieces[0], Some(pieces[1]))
  }

  /** What `ParseEntry` yields: the term is a `:=`-free prefix of the line;
      the definition is missing exactly when the line has no `:=` (and then
      the term is the whole line); otherwise it is the `:=`-free text after
      the first `:=`, ending at the end of the line or at the next `:=`. */
  lemma ParseEntryShape(line: string)
    ensures var e := ParseEntry(line);
      e.term <= line && Free(e.term, Separator) &&
      (e.definition.None? <==> Free(line, Separator)) &&
      (e.definition.None? ==> e.term == line) &&
      (e.definition.Some? ==>
        var n := |e.term| + |Separator| + |e.definition.value|;
        Free(e.definition.value, Separator) &&
        n <= |line| && line[..n] == e.term + Separator + e.definition.value &&
        (n == |line| || OccursAt(line, Separator, n)))
  {
    var pieces := Split(line, Separator);
    if |pieces| > 1 {
      var rest := pieces[1..];
      assert line == pieces[0] + Separator + Join(rest, Separator);
      assert line[|pieces[0]|..|pieces[0]| + 2] == Separator;
      assert |rest| == 1 || Join(rest, Separator) == rest[0] + Separator + Join(rest[1..], Separator);
    }
  }

  /** Each fragment parsed by `ParseEntry`, in order. */
  function ParseLines(lines: seq<string>): seq<Entry> {
    seq(|lines|, i requires 0 <= i < |lines| => ParseEntry(lines[i]))
  }

  /** The records of a whole file: `content.split(';\n')`, each fragment
      parsed by `ParseEntry`. */
  function Parse(content: string): seq<Entry> {
    ParseLines(Split(content, Delimiter))
  }

  // ---------------------------------------------------------------------------
  // The dictionary: an insertion-ordered association list

  /** The keys of an association list, in order. */
  function Keys(d: seq<Entry>): seq<string> {
    seq(|d|, i requires 0 <= i < |d| => d[i].term)
  }

  /** One more entry adds its key at the end of the keys. */
  lemma KeysSnoc(d: seq<Entry>, e: Entry)
    ensures Keys(d + [e]) == Keys(d) + [e.term]
  {
    assert forall i :: 0 <= i < |d| ==> (d + [e])[i] == d[i];
  }

  /** One more entry in front adds its key in front of the keys. */
  lemma KeysCons(e: Entry, d: seq<Entry>)
    ensures Keys([e] + d) == [e.term] + Keys(d)
  {
    var k, k0 := Keys([e] + d), Keys(d);
    assert |k| == 1 + |k0| && k[0] == e.term;
    forall i | 0 <= i < |k0| ensures k[i + 1] == k0[i] {
      assert ([e] + d)[i + 1] == d[i];
    }
  }

  /** `glossary[k]`: the value stored under the first entry for `k`, if any. */
  function Lookup(d: seq<Entry>, k: string): (r: Option<Option<string>>)
    ensures r.Some? <==> k in Keys(d)
  {
    if d == [] then None
    else
      assert Keys(d) == [d[0].term] + Keys(d[1..]);
      if d[0].term == k then Some(d[0].definition) else Lookup(d[1..], k)
  }

  /** `glossary[k] = v`: an existing key keeps its position and takes the new
      value; a new key goes at the end. */
  function Put(d: seq<Entry>, k: string, v: Option<string>): (r: seq<Entry>)
    ensures Keys(r) == if k in Keys(d) then Keys(d) else Keys(d) + [k]
    ensures k !in Keys(d) ==> r == d + [Entry(k, v)]
    ensures forall x :: x in r ==> x in d || x == Entry(k, v)
  {
    if d == [] then
      KeysCons(Entry(k, v), []);
      [Entry(k, v)]
    else
      assert d == [d[0]] + d[1..];
      KeysCons(d[0], d[1..]);
      if d[0].term == k then
        KeysCons(Entry(k, v), d[1..]);
        [Entry(k, v)] + d[1..]
      else
        var rest := Put(d[1..], k, v);
        KeysCons(d[0], rest);
        [d[0]] + rest
  }

  /** After `glossary[k] = v`, looking up `k` gives `v` and looking up any
      other key gives what it gave before. */
  lemma {:induction false} PutLookup(d: seq<Entry>, k: string, v: Option<string>, k': string)
    ensures Lookup(Put(d, k, v), k') == if k' == k then Some(v) else Lookup(d, k')
    decreases |d|
  {
    if d != [] && d[0].term != k {
      var r := Put(d, k, v);
      PutLookup(d[1..], k, v, k');
      assert r[0] == d[0] && r[1..] == Put(d[1..], k, v);
    }
  }

  /** The dictionary that the loop of `AddToGlossary` builds from the records
      `es`, one assignment per record, in order. */
  function Dict(es: seq<Entry>): seq<Entry>
    decreases |es|
  {
    if es == [] then []
    else
      var last := es[|es| - 1];
      Put(Dict(es[..|es| - 1]), last.term, last.definition)
  }

  /** Storing one more record: the dictionary and the keys of the records
      read so far each grow by that record. */
  lemma DictStep(es: seq<Entry>, i: nat)
    requires i < |es|
    ensures Dict(es[..i + 1]) == Put(Dict(es[..i]), es[i].term, es[i].definition)
    ensures Keys(es[..i + 1]) == Keys(es[..i]) + [es[i].term]
  {
    assert es[..i + 1] == es[..i] + [es[i]];
    KeysSnoc(es[..i], es[i]);
  }

  // ---------------------------------------------------------------------------
  // Serialisation

  /** How a value is written out: `undefined` for a missing definition. */
  function Render(v: Option<string>): string {
    match v
    case None => Undefined
    case Some(s) => s
  }

  /** The text one dictionary entry contributes: nothing for the empty key. */
  function Line(e: Entry): string {
    if e.term == "" then "" else e.term + Separator + Render(e.definition) + Delimiter
  }

  /** The text of a dictionary, entry by entry in its order. */
  function Encode(d: seq<Entry>): string {
    if d == [] then "" else Line(d[0]) + Encode(d[1..])
  }

  /** Encoding one more entry adds its line at the end. */
  lemma {:induction false} EncodeSnoc(d: seq<Entry>, e: Entry)
    ensures Encode(d + [e]) == Encode(d) + Line(e)
  {
    var de := d + [e];
    if d == [] {
      assert de == [e] && de[1..] == [];
      assert Encode(de) == Line(e) + Encode([]);
    } else {
      var t := d[1..];
      assert de[0] == d[0] && de[1..] == t + [e];
      EncodeSnoc(t, e);
      var l, et := Line(d[0]), Encode(t);
      assert Encode(de) == l + (et + Line(e));
      assert Encode(d) == l + et;
      AppendAssoc(l, et, Line(e));
    }
  }

  /** The `for (let term in glossary)` loop: appends `term:=value;\n` for
      every key but the empty one, in the dictionary's order. */
  method Serialise(glossary: seq<Entry>) returns (newContent: string)
    ensures newContent == Encode(glossary)
  {
    newContent := "";
    var k := 0;
    while k < |glossary|
      invariant 0 <= k <= |glossary|
      invariant newContent == Encode(glossary[..k])
    {
      var term := glossary[k].term;
      ghost var done := glossary[..k];
      assert glossary[..k + 1] == done + [glossary[k]];
      EncodeSnoc(done, glossary[k]);
      if term != "" {
        var line := term + Separator + Render(glossary[k].definition) + Delimiter;
        assert line == Line(glossary[k]);
        newContent := newContent + line;
      }
      k := k + 1;
    }
    assert glossary[..k] == glossary;
  }

  // ---------------------------------------------------------------------------
  // The operation

  /** What the `vault.process` callback of `addToGlossary` computes. */
  function Insert(content: string, newTerm: string, newDefinition: string): Outcome {
    var es := Parse(content);
    if newTerm in Keys(es) then Outcome(true, content)
    else Outcome(false, Encode(Put(Dict(es), newTerm, Some(newDefinition))))
  }

  /** The body of the `vault.process` callback: split the file into records,
      stop at the first record whose term is exactly `newTerm`, otherwise
      store every record in the dictionary, add the new pair and write the
      dictionary back without its empty key. */
  method AddToGlossary(content: string, newTerm: string, newDefinition: string)
    returns (alreadyExists: bool, newContent: string)
    ensures alreadyExists <==> newTerm in Keys(Parse(content))
    ensures alreadyExists ==> newContent == content
    ensures Outcome(alreadyExists, newContent) == Insert(content, newTerm, newDefinition)
  {
    alreadyExists := false;
    var lines := Split(content, Delimiter);
    ghost var es := Parse(content);
    var glossary: seq<Entry> := [];
    var i := 0;
    while i < |lines|
      invariant 0 <= i <= |lines|
      invariant newTerm !in Keys(es[..i])
      invariant glossary == Dict(es[..i])
    {
      var e := ParseEntry(lines[i]);
      assert e == es[i];
      if e.term == newTerm {
        assert Keys(es)[i] == newTerm;
        alreadyExists := true;
        break;
      }
      DictStep(es, i);
      glossary := Put(glossary, e.term, e.definition);
      i := i + 1;
    }
    if !alreadyExists {
      assert es[..i] == es;
      glossary := Put(glossary, newTerm, Some(newDefinition));
      newContent := Serialise(glossary);
    } else {
      newContent := content;
    }
  }
}
