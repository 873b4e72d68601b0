/** Properties of the glossary store: how duplicates in the file collapse,
    what reading an encoded dictionary back yields, and what inserting twice
    does. */
module GlossaryLaws {
  import opened JsString
  import opened Glossary

  // ---------------------------------------------------------------------------
  // Vocabulary

  /** True when no two positions of `ks` hold the same key. */
  predicate Distinct(ks: seq<string>) {
    forall i, j :: 0 <= i < j < |ks| ==> ks[i] != ks[j]
  }

  /** The position of the first occurrence of `k` in `ks`. */
  function FirstIndex(ks: seq<string>, k: string): (i: nat)
    requires k in ks
    ensures i < |ks| && ks[i] == k
    ensures forall j :: 0 <= j < i ==> ks[j] != k
  {
    if ks[0] == k then 0 else 1 + FirstIndex(ks[1..], k)
  }

  /** `kd` lists only keys of `ks`, in the order of their first occurrence
      in `ks`. */
  predicate FirstOccurrenceOrder(ks: seq<string>, kd: seq<string>) {
    (forall k :: k in kd ==> k in ks) &&
    forall i, j :: 0 <= i < j < |kd| ==> FirstIndex(ks, kd[i]) < FirstIndex(ks, kd[j])
  }

  /** Text that neither delimiter of the format occurs in. */
  predicate Clean(s: string) {
    Free(s, Separator) && Free(s, Delimiter)
  }

  /** An entry whose term and written-out value are both clean. */
  predicate EntryClean(e: Entry) {
    Clean(e.term) && Clean(Render(e.definition))
  }

  /** The records that reading back `Encode(d)` yields before the final empty
      fragment: the entries with a non-empty key, each value as written. */
  function Normal(d: seq<Entry>): seq<Entry> {
    if d == [] then []
    else if d[0].term == "" then Normal(d[1..])
    else [Entry(d[0].term, Some(Render(d[0].definition)))] + Normal(d[1..])
  }

  /** A dictionary as the loop writes it out unchanged: every entry clean,
      with a non-empty key and a definition. */
  predicate Written(d: seq<Entry>) {
    forall x :: x in d ==> EntryClean(x) && x.term != "" && x.definition.Some?
  }

  // ---------------------------------------------------------------------------
  // Small facts about the vocabulary

  lemma FirstIndexSnoc(ks: seq<string>, x: string, k: string)
    requires k in ks
    ensures FirstIndex(ks + [x], k) == FirstIndex(ks, k)
  {
    assert forall j :: 0 <= j < |ks| ==> (ks + [x])[j] == ks[j];
  }

  lemma FirstIndexFresh(ks: seq<string>, x: string)
    requires x !in ks
    ensures FirstIndex(ks + [x], x) == |ks|
  {
    assert forall j :: 0 <= j < |ks| ==> (ks + [x])[j] == ks[j];
    assert (ks + [x])[|ks|] == x;
  }

  lemma DistinctPrefix(ks: seq<string>, x: string)
    requires Distinct(ks + [x])
    ensures Distinct(ks) && x !in ks
  {
    assert forall i :: 0 <= i < |ks| ==> (ks + [x])[i] == ks[i];
    assert (ks + [x])[|ks|] == x;
  }

  lemma DistinctSnoc(ks: seq<string>, x: string)
    requires Distinct(ks) && x !in ks
    ensures Distinct(ks + [x])
  {
    assert forall i :: 0 <= i < |ks| ==> (ks + [x])[i] == ks[i];
  }

  lemma DistinctCons(x: string, ks: seq<string>)
    requires Distinct(ks) && x !in ks
    ensures Distinct([x] + ks)
  {
    assert forall i :: 0 <= i < |ks| ==> ([x] + ks)[i + 1] == ks[i];
  }

  /** Appending a term to the records keeps the order of first occurrences
      of the keys, whether the term is new (and goes last) or not. */
  lemma OrderSnoc(ks: seq<string>, kd: seq<string>, x: string)
    requires FirstOccurrenceOrder(ks, kd)
    requires x in kd <==> x in ks
    ensures FirstOccurrenceOrder(ks + [x], if x in kd then kd else kd + [x])
  {
    if x in kd {
      OrderSnocKnown(ks, kd, x);
    } else {
      OrderSnocFresh(ks, kd, x);
    }
  }

  lemma OrderSnocKnown(ks: seq<string>, kd: seq<string>, x: string)
    requires FirstOccurrenceOrder(ks, kd)
    ensures FirstOccurrenceOrder(ks + [x], kd)
  {
    var ks' := ks + [x];
    forall i, j | 0 <= i < j < |kd| ensures FirstIndex(ks', kd[i]) < FirstIndex(ks', kd[j]) {
      FirstIndexSnoc(ks, x, kd[i]);
      FirstIndexSnoc(ks, x, kd[j]);
    }
  }

  lemma OrderSnocFresh(ks: seq<string>, kd: seq<string>, x: string)
    requires FirstOccurrenceOrder(ks, kd) && x !in ks
    ensures FirstOccurrenceOrder(ks + [x], kd + [x])
  {
    var ks', kd' := ks + [x], kd + [x];
    FirstIndexFresh(ks, x);
    forall i, j | 0 <= i < j < |kd'| ensures FirstIndex(ks', kd'[i]) < FirstIndex(ks', kd'[j]) {
      assert kd'[i] == kd[i] && kd[i] in ks;
      FirstIndexSnoc(ks, x, kd[i]);
      if j < |kd| {
        assert kd'[j] == kd[j];
        FirstIndexSnoc(ks, x, kd[j]);
      }
    }
  }

  /** The text "undefined" that stands for a missing definition is clean. */
  lemma UndefinedClean()
    ensures Clean(Undefined)
  {
    FreeOfFirstChar(Undefined, Separator);
    FreeOfFirstChar(Undefined, Delimiter);
  }

  /** Text without `:` and `;` is clean: both delimiters begin with one of
      them. */
  lemma CleanLiteral(s: string)
    requires ':' !in s && ';' !in s
    ensures Clean(s)
  {
    FreeOfFirstChar(s, Separator);
    FreeOfFirstChar(s, Delimiter);
  }

  // ---------------------------------------------------------------------------
  // Duplicate collapse: what the dictionary built from the records holds

  /** The dictionary holds exactly the terms of the records, each once. */
  lemma {:induction false} DictKeysAreTerms(es: seq<Entry>)
    ensures Distinct(Keys(Dict(es)))
    ensures forall k :: k in Keys(Dict(es)) <==> k in Keys(es)
    decreases |es|
  {
    if es != [] {
      var pre, last := es[..|es| - 1], es[|es| - 1];
      assert es == pre + [last];
      KeysSnoc(pre, last);
      DictKeysAreTerms(pre);
      var kd0 := Keys(Dict(pre));
      if last.term !in kd0 {
        DistinctSnoc(kd0, last.term);
      }
    }
  }

  /** The dictionary orders its keys by the first occurrence of each term
      among the records. */
  lemma {:induction false} DictKeyOrder(es: seq<Entry>)
    ensures FirstOccurrenceOrder(Keys(es), Keys(Dict(es)))
    decreases |es|
  {
    if es != [] {
      var pre, last := es[..|es| - 1], es[|es| - 1];
      assert es == pre + [last];
      KeysSnoc(pre, last);
      DictKeysAreTerms(pre);
      DictKeyOrder(pre);
      var kd0 := Keys(Dict(pre));
      assert Keys(Dict(es)) == if last.term in kd0 then kd0 else kd0 + [last.term];
      OrderSnoc(Keys(pre), kd0, last.term);
    }
  }

  /** The value stored under a term is the definition of its last record. */
  lemma {:induction false} DictLastWins(es: seq<Entry>, k: string, j: nat)
    requires j < |es| && es[j].term == k
    requires forall j' :: j < j' < |es| ==> es[j'].term != k
    ensures Lookup(Dict(es), k) == Some(es[j].definition)
    decreases |es|
  {
    var pre, last := es[..|es| - 1], es[|es| - 1];
    PutLookup(Dict(pre), last.term, last.definition, k);
    if j < |es| - 1 {
      DictLastWins(pre, k, j);
    }
  }

  /** Every entry of the dictionary is one of the records, as read. */
  lemma {:induction false} DictEntriesFromRecords(es: seq<Entry>)
    ensures forall x :: x in Dict(es) ==> x in es
    decreases |es|
  {
    if es != [] {
      var pre, last := es[..|es| - 1], es[|es| - 1];
      DictEntriesFromRecords(pre);
      assert forall x :: x in pre ==> x in es;
    }
  }

  /** With distinct keys, looking up an entry's term gives that entry's own
      definition. */
  lemma {:induction false} LookupOwnEntry(d: seq<Entry>, i: nat)
    requires Distinct(Keys(d)) && i < |d|
    ensures Lookup(d, d[i].term) == Some(d[i].definition)
    decreases |d|
  {
    var t := d[1..];
    KeysCons(d[0], t);
    assert d == [d[0]] + t;
    if i > 0 {
      var ks := Keys(d);
      assert ks[0] == d[0].term && ks[i] == d[i].term;
      forall a, b | 0 <= a < b < |Keys(t)| ensures Keys(t)[a] != Keys(t)[b] {
        assert ks[a + 1] == Keys(t)[a] && ks[b + 1] == Keys(t)[b];
      }
      assert t[i - 1] == d[i];
      LookupOwnEntry(t, i - 1);
    }
  }

  /** Records with distinct terms are stored unchanged and in order. */
  lemma {:induction false} DictOfDistinct(es: seq<Entry>)
    requires Distinct(Keys(es))
    ensures Dict(es) == es
    decreases |es|
  {
    if es != [] {
      var pre, last := es[..|es| - 1], es[|es| - 1];
      assert es == pre + [last];
      KeysSnoc(pre, last);
      DistinctPrefix(Keys(pre), last.term);
      DictOfDistinct(pre);
    }
  }

  // ---------------------------------------------------------------------------
  // Parsing known text

  /** The empty file is the single empty fragment. */
  lemma ParseEmpty()
    ensures Parse("") == [Entry("", None)]
  {
    assert Split("", Delimiter) == [""];
    assert Split("", Separator) == [""];
  }

  /** A record followed by the delimiter is parsed on its own. */
  lemma ParseAt(a: string, b: string)
    requires Free(a, Delimiter)
    ensures Parse(a + Delimiter + b) == [ParseEntry(a)] + Parse(b)
  {
    SplitAt(a, Delimiter, b);
    ParseLinesCons(a, Split(b, Delimiter));
  }

  /** Parsing one more fragment in front adds its record in front. */
  lemma ParseLinesCons(x: string, ls: seq<string>)
    ensures ParseLines([x] + ls) == [ParseEntry(x)] + ParseLines(ls)
  {
    var xs := [x] + ls;
    var p, r := ParseLines(xs), [ParseEntry(x)] + ParseLines(ls);
    assert |p| == |r|;
    forall i | 0 <= i < |p| ensures p[i] == r[i] {
      if i > 0 {
        var y := xs[i];
        assert y == ls[i - 1];
        assert p[i] == ParseEntry(y) == r[i];
      }
    }
  }

  /** `term:=definition` with both parts free of `:=` reads back as that pair. */
  lemma ParseEntryAt(t: string, v: string)
    requires Free(t, Separator) && Free(v, Separator)
    ensures ParseEntry(t + Separator + v) == Entry(t, Some(v))
  {
    SplitAt(t, Separator, v);
    SplitFree(v, Separator);
  }

  /** Every record read from any file is clean: `split` leaves no delimiter
      in its pieces. */
  lemma ParsedRecordsClean(content: string)
    ensures forall x :: x in Parse(content) ==> EntryClean(x)
  {
    var lines := Split(content, Delimiter);
    UndefinedClean();
    forall i | 0 <= i < |lines| ensures EntryClean(Parse(content)[i]) {
      var line := lines[i];
      var e := ParseEntry(line);
      assert Parse(content)[i] == e;
      assert line[..|e.term|] == e.term;
      FreeSlice(line, Delimiter, 0, |e.term|);
      if e.definition.Some? {
        var v := e.definition.value;
        var n := |e.term| + |Separator| + |v|;
        assert line[|e.term| + 2..n] == v by {
          assert line[..n][|e.term| + 2..] == v;
        }
        FreeSlice(line, Delimiter, |e.term| + 2, n);
      }
    }
  }

  /** Every entry of the dictionary built from any file is clean. */
  lemma DictClean(content: string)
    ensures forall x :: x in Dict(Parse(content)) ==> EntryClean(x)
  {
    ParsedRecordsClean(content);
    DictEntriesFromRecords(Parse(content));
  }

  // ---------------------------------------------------------------------------
  // Reading an encoded dictionary back

  /** A written entry at the end is read back as it is, after the others. */
  lemma {:induction false} NormalSnoc(d: seq<Entry>, e: Entry)
    requires e.term != "" && e.definition.Some?
    ensures Normal(d + [e]) == Normal(d) + [e]
  {
    var de := d + [e];
    if d == [] {
      assert de == [e] && de[1..] == [];
      assert Normal(de) == [e] + Normal([]);
    } else {
      var t := d[1..];
      assert de[0] == d[0] && de[1..] == t + [e];
      NormalSnoc(t, e);
      if d[0].term != "" {
        var x := [Entry(d[0].term, Some(Render(d[0].definition)))];
        assert Normal(de) == x + (Normal(t) + [e]);
        assert Normal(d) == x + Normal(t);
        AppendAssoc(x, Normal(t), [e]);
      }
    }
  }

  /** `Normal` keeps exactly the non-empty keys, in order, so it keeps them
      distinct. */
  lemma {:induction false} NormalKeys(d: seq<Entry>)
    ensures "" !in Keys(Normal(d))
    ensures forall k :: k != "" ==> (k in Keys(Normal(d)) <==> k in Keys(d))
    ensures Distinct(Keys(d)) ==> Distinct(Keys(Normal(d)))
  {
    if d != [] {
      var tail := d[1..];
      NormalKeys(tail);
      var rest := Normal(tail);
      var ks, kt := Keys(d), Keys(tail);
      assert d == [d[0]] + tail;
      KeysCons(d[0], tail);
      if Distinct(ks) {
        forall i, j | 0 <= i < j < |kt| ensures kt[i] != kt[j] {
          assert ks[i + 1] == kt[i] && ks[j + 1] == kt[j];
        }
        forall i | 0 <= i < |kt| ensures kt[i] != d[0].term {
          assert ks[i + 1] == kt[i] && ks[0] == d[0].term;
        }
      }
      if d[0].term != "" {
        var e := Entry(d[0].term, Some(Render(d[0].definition)));
        assert Normal(d) == [e] + rest;
        KeysCons(e, rest);
        if Distinct(ks) {
          DistinctCons(e.term, Keys(rest));
        }
      } else {
        assert Normal(d) == rest;
      }
    }
  }

  /** The line of a clean entry with a non-empty key, followed by any text,
      reads back as that entry with its value as written, then the text's
      own records. */
  lemma ParseLine(e: Entry, b: string)
    requires EntryClean(e) && e.term != ""
    ensures Parse(Line(e) + b) == [Entry(e.term, Some(Render(e.definition)))] + Parse(b)
  {
    var v := Render(e.definition);
    var a := e.term + Separator + v;
    assert Line(e) + b == a + Delimiter + b;
    FreeAround(e.term, Separator, v, Delimiter);
    ParseAt(a, b);
    ParseEntryAt(e.term, v);
  }

  /** Writing a clean dictionary out and splitting the text again gives one
      record per non-empty key, in order, each carrying its value as written,
      followed by the empty fragment after the last delimiter. */
  lemma {:induction false} ParseEncode(d: seq<Entry>)
    requires forall x :: x in d ==> EntryClean(x)
    ensures Parse(Encode(d)) == Normal(d) + [Entry("", None)]
  {
    if d == [] {
      ParseEmpty();
    } else {
      var e, rest := d[0], d[1..];
      assert forall x :: x in rest ==> x in d;
      ParseEncode(rest);
      assert EntryClean(e);
      assert Encode(d) == Line(e) + Encode(rest);
      if e.term != "" {
        var r := Entry(e.term, Some(Render(e.definition)));
        ParseLine(e, Encode(rest));
        assert Normal(d) == [r] + Normal(rest);
        assert Parse(Encode(d)) == [r] + (Normal(rest) + [Entry("", None)]);
      } else {
        assert Line(e) == "";
        assert Encode(d) == Encode(rest);
        assert Normal(d) == Normal(rest);
      }
    }
  }

  /** Round trip: re-reading the text of a clean dictionary with distinct keys
      and storing the records again recovers the same dictionary, minus the
      empty key and with missing values written as "undefined", plus the
      empty key from the final empty fragment. */
  lemma ReparseEncode(d: seq<Entry>)
    requires forall x :: x in d ==> EntryClean(x)
    requires Distinct(Keys(d))
    ensures Dict(Parse(Encode(d))) == Normal(d) + [Entry("", None)]
  {
    ParseEncode(d);
    NormalKeys(d);
    var n := Normal(d);
    KeysSnoc(n, Entry("", None));
    DistinctSnoc(Keys(n), "");
    DictOfDistinct(n + [Entry("", None)]);
  }

  // ---------------------------------------------------------------------------
  // The insert operation

  /** When the term is absent, the new text is the text of the dictionary built
      from the file followed by the new record, and the new term is a fresh key
      of that dictionary. */
  lemma InsertAppendsLast(content: string, t: string, d: string)
    requires t !in Keys(Parse(content))
    ensures t !in Keys(Dict(Parse(content)))
    ensures Insert(content, t, d).newContent == Encode(Dict(Parse(content)) + [Entry(t, Some(d))])
    ensures Insert(content, t, d) ==
      Outcome(false, Encode(Dict(Parse(content))) + if t == "" then "" else t + Separator + d + Delimiter)
  {
    DictKeysAreTerms(Parse(content));
    EncodeSnoc(Dict(Parse(content)), Entry(t, Some(d)));
  }

  /** The records read back from the text of a successful insert of a clean
      pair: the non-empty entries of the dictionary, the new pair, and the
      empty fragment after the last delimiter. */
  lemma InsertReparsed(content: string, t: string, d: string)
    requires t !in Keys(Parse(content)) && t != ""
    requires Clean(t) && Clean(d)
    ensures Parse(Insert(content, t, d).newContent) ==
      Normal(Dict(Parse(content))) + [Entry(t, Some(d)), Entry("", None)]
  {
    InsertAppendsLast(content, t, d);
    DictClean(content);
    ReparseSnoc(Dict(Parse(content)), Entry(t, Some(d)));
  }

  /** The text of a clean dictionary followed by one more clean record with a
      non-empty key reads back as the dictionary's records, that record, and
      the empty fragment. */
  lemma ReparseSnoc(g: seq<Entry>, e: Entry)
    requires forall x :: x in g ==> EntryClean(x)
    requires EntryClean(e) && e.term != "" && e.definition.Some?
    ensures Parse(Encode(g + [e])) == Normal(g) + [e, Entry("", None)]
  {
    var empty := Entry("", None);
    assert Parse(Encode(g + [e])) == Normal(g + [e]) + [empty] by {
      assert forall x :: x in g + [e] ==> x in g || x == e;
      ParseEncode(g + [e]);
    }
    NormalSnoc(g, e);
    AppendAssoc(Normal(g), [e], [empty]);
  }

  /** The non-empty keys of the dictionary built from a file, which the new
      text repeats, are distinct and do not include a term that was absent. */
  lemma NormalDictKeys(content: string, t: string)
    requires t !in Keys(Parse(content)) && t != ""
    ensures var g := Normal(Dict(Parse(content)));
      t !in Keys(g) && "" !in Keys(g) && Distinct(Keys(g))
  {
    DictKeysAreTerms(Parse(content));
    NormalKeys(Dict(Parse(content)));
  }

  /** Reading back the text that a successful insert of a clean pair produced:
      one record per non-empty key of the dictionary built from the file, then
      the new pair exactly once and last, then the empty fragment; storing
      those records again changes nothing. */
  lemma InsertRoundTrip(content: string, t: string, d: string)
    requires t !in Keys(Parse(content)) && t != ""
    requires Clean(t) && Clean(d)
    ensures var out := Insert(content, t, d).newContent;
      var g := Normal(Dict(Parse(content)));
      Parse(out) == g + [Entry(t, Some(d)), Entry("", None)] &&
      t !in Keys(g) && Distinct(Keys(g)) &&
      Dict(Parse(out)) == Parse(out)
  {
    var g := Normal(Dict(Parse(content)));
    var e := Entry(t, Some(d));
    InsertReparsed(content, t, d);
    NormalDictKeys(content, t);
    assert g + [e, Entry("", None)] == (g + [e]) + [Entry("", None)];
    KeysSnoc(g, e);
    KeysSnoc(g + [e], Entry("", None));
    DistinctSnoc(Keys(g), t);
    DistinctSnoc(Keys(g + [e]), "");
    DictOfDistinct(g + [e, Entry("", None)]);
  }

  /** Idempotence: feeding the text of a successful insert back with the same
      clean term finds the term and leaves the text as it is. The empty term
      is found in the empty fragment after the last delimiter. */
  lemma InsertIdempotent(content: string, t: string, d: string, d2: string)
    requires t !in Keys(Parse(content))
    requires Clean(t) && Clean(d)
    ensures var out := Insert(content, t, d);
      !out.alreadyExists && Insert(out.newContent, t, d2) == Outcome(true, out.newContent)
  {
    if t == "" {
      InsertEmptyTerm(content, d);
      var g := Dict(Parse(content));
      DictClean(content);
      ParseEncode(g);
      var es := Parse(Encode(g));
      assert es[|Normal(g)|] == Entry("", None);
      assert Keys(es)[|Normal(g)|] == "";
    } else {
      InsertRoundTrip(content, t, d);
      var g := Normal(Dict(Parse(content)));
      var es := Parse(Insert(content, t, d).newContent);
      assert es[|g|] == Entry(t, Some(d));
      assert Keys(es)[|g|] == t;
    }
  }

  /** An empty file gets exactly the new record; an empty term is found in the
      empty file's only fragment. */
  lemma InsertIntoEmpty(t: string, d: string)
    ensures Insert("", t, d) ==
      if t == "" then Outcome(true, "") else Outcome(false, t + Separator + d + Delimiter)
  {
    if t == "" {
      ParseEmpty();
      assert Keys(Parse("")) == [""];
    } else {
      var none: seq<Entry> := [];
      assert Encode(none) == "";
      InsertIntoWrittenFile(none, t, d);
      assert "" + (t + Separator + d + Delimiter) == t + Separator + d + Delimiter;
    }
  }

  /** An empty term is never written: either the file already has a
      fragment whose term is empty (an empty fragment, or one starting with
      `:=`) and is left as it is, or the pair is stored under the empty key,
      which serialisation skips. */
  lemma InsertEmptyTerm(content: string, d: string)
    ensures Insert(content, "", d) ==
      if "" in Keys(Parse(content)) then Outcome(true, content)
      else Outcome(false, Encode(Dict(Parse(content))))
  {
    if "" !in Keys(Parse(content)) {
      InsertAppendsLast(content, "", d);
    }
  }

  /** Entries with a non-empty key and a definition are written and read
      back as they are. */
  lemma {:induction false} NormalOfWritten(d: seq<Entry>)
    requires forall x :: x in d ==> x.term != "" && x.definition.Some?
    ensures Normal(d) == d
  {
    if d != [] {
      assert forall x :: x in d[1..] ==> x in d;
      NormalOfWritten(d[1..]);
      assert d == [d[0]] + d[1..];
    }
  }

  /** Inserting a new non-empty term into a file that is the text of a
      written dictionary keeps that text byte for byte and appends the one
      new record. */
  lemma InsertIntoWrittenFile(d: seq<Entry>, t: string, v: string)
    requires Written(d) && Distinct(Keys(d))
    requires t != "" && t !in Keys(d)
    ensures Insert(Encode(d), t, v) == Outcome(false, Encode(d) + t + Separator + v + Delimiter)
    ensures Insert(Encode(d), t, v).newContent == Encode(d + [Entry(t, Some(v))])
  {
    var empty := Entry("", None);
    var es := Parse(Encode(d));
    assert es == d + [empty] && t !in Keys(es) && Distinct(Keys(es)) by {
      ParseEncode(d);
      NormalOfWritten(d);
      KeysSnoc(d, empty);
      assert "" !in Keys(d) by {
        assert forall i :: 0 <= i < |d| ==> Keys(d)[i] == d[i].term && d[i] in d;
      }
      DistinctSnoc(Keys(d), "");
    }
    assert Encode(Dict(es)) == Encode(d) by {
      DictOfDistinct(es);
      EncodeSnoc(d, empty);
      assert Line(empty) == "";
    }
    var text, line := Encode(d), t + Separator + v + Delimiter;
    InsertAppendsLast(text, t, v);
    EncodeSnoc(d, Entry(t, Some(v)));
    assert Line(Entry(t, Some(v))) == line;
    AppendAssoc(text, t + Separator + v, Delimiter);
    AppendAssoc(text, t + Separator, v);
    AppendAssoc(text, t, Separator);
  }

  // ---------------------------------------------------------------------------
  // Lossy and raw parsing

  /** A non-empty fragment without `:=` becomes a record with no
      definition, and is written back with the definition "undefined". */
  lemma MalformedFragmentRewritten(line: string)
    requires line != "" && Free(line, Separator)
    ensures ParseEntry(line) == Entry(line, None)
    ensures Line(ParseEntry(line)) == line + ":=undefined;\n"
  {
  }

  /** A fragment with several `:=` keeps only the text between the first and
      the second as its definition. */
  lemma ExtraSeparatorsDropped(t: string, v: string, rest: string)
    requires Free(t, Separator) && Free(v, Separator)
    ensures ParseEntry(t + Separator + v + Separator + rest) == Entry(t, Some(v))
  {
    var line := t + Separator + v + Separator + rest;
    assert line == t + Separator + (v + Separator + rest);
    SplitAt(t, Separator, v + Separator + rest);
    SplitAt(v, Separator, rest);
  }

  /** Text in front of the first record, such as a heading line, is part of
      that record's term; so, when there is such text, the bare term is found
      only if a later record carries it. */
  lemma HeadingGluedToFirstTerm(h: string, t: string, v: string, rest: string)
    requires Clean(h + t) && Clean(v)
    ensures Parse(h + t + Separator + v + Delimiter + rest) == [Entry(h + t, Some(v))] + Parse(rest)
    ensures h != "" ==>
      (t in Keys(Parse(h + t + Separator + v + Delimiter + rest)) <==> t in Keys(Parse(rest)))
  {
    var a := h + t + Separator + v;
    FreeAround(h + t, Separator, v, Delimiter);
    ParseAt(a, rest);
    ParseEntryAt(h + t, v);
    var p := Parse(rest);
    KeysCons(Entry(h + t, Some(v)), p);
    assert h != "" ==> h + t != t by {
      assert |h + t| == |h| + |t|;
    }
  }

  /** The file layout shown in the comment above `addToGlossary`, split into
      records: the heading is glued to the first term and the space after
      `:=` stays in each definition. */
  lemma CommentLayoutRecords()
    ensures Parse("# glossary\n" + "term1" + ":=" + " definition1" + ";\n" +
                  "term2" + ":=" + " definition2" + ";\n") ==
      [Entry("# glossary\n" + "term1", Some(" definition1")),
       Entry("term2", Some(" definition2")),
       Entry("", None)]
  {
    var h, t1, v1, t2, v2 := "# glossary\n", "term1", " definition1", "term2", " definition2";
    var rest := t2 + Separator + v2 + Delimiter + "";
    assert "# glossary\n" + "term1" + ":=" + " definition1" + ";\n" +
           "term2" + ":=" + " definition2" + ";\n" == h + t1 + Separator + v1 + Delimiter + rest;
    assert "" + t2 == t2;
    CleanLiteral(h + t1);
    CleanLiteral(v1);
    CleanLiteral(t2);
    CleanLiteral(v2);
    HeadingGluedToFirstTerm(h, t1, v1, rest);
    HeadingGluedToFirstTerm("", t2, v2, "");
    ParseEmpty();
  }

  /** Matching is raw: in that layout only the second term can be found by
      its bare name. */
  lemma CommentLayoutMatching()
    ensures var content := "# glossary\n" + "term1" + ":=" + " definition1" + ";\n" +
                           "term2" + ":=" + " definition2" + ";\n";
      "term1" !in Keys(Parse(content)) && "term2" in Keys(Parse(content))
  {
    CommentLayoutRecords();
    var es := Parse("# glossary\n" + "term1" + ":=" + " definition1" + ";\n" +
                    "term2" + ":=" + " definition2" + ";\n");
    assert Keys(es) == ["# glossary\n" + "term1", "term2", ""];
    assert "term2"[4] != "term1"[4];
  }

  /** A file that starts with a heading line, the record that inserting
      "banana" adds, and the text after that insert. */
  const HeadedFile := "# glossary\n" + "apple" + Separator + "a fruit" + Delimiter
  const BananaLine := "banana" + Separator + "a fruit too" + Delimiter
  const HeadedFileWithBanana := HeadedFile + BananaLine

  /** The headed file is the text of a one-entry dictionary whose only key
      is the heading together with "apple". */
  lemma HeadedFileWritten()
    ensures var d := [Entry("# glossary\n" + "apple", Some("a fruit"))];
      Encode(d) == HeadedFile && Written(d) && Distinct(Keys(d)) && "banana" !in Keys(d)
  {
    var t := "# glossary\n" + "apple";
    var d := [Entry(t, Some("a fruit"))];
    assert d[1..] == [];
    assert Line(d[0]) == HeadedFile;
    CleanLiteral(t);
    CleanLiteral("a fruit");
    KeysCons(d[0], []);
    assert |"banana"| != |t|;
  }

  /** Inserting "banana" rewrites the heading and the first record unchanged
      and appends the new record. */
  lemma HeadedFileInsert()
    ensures Insert(HeadedFile, "banana", "a fruit too") == Outcome(false, HeadedFileWithBanana)
  {
    HeadedFileWritten();
    InsertIntoWrittenFile([Entry("# glossary\n" + "apple", Some("a fruit"))], "banana", "a fruit too");
    AppendAssoc(HeadedFile, "banana" + Separator + "a fruit too", Delimiter);
    AppendAssoc(HeadedFile, "banana" + Separator, "a fruit too");
    AppendAssoc(HeadedFile, "banana", Separator);
  }

  /** The added record on its own reads back as the pair and the final empty
      fragment. */
  lemma BananaLineRecords()
    ensures Parse(BananaLine) == [Entry("banana", Some("a fruit too")), Entry("", None)]
  {
    var e := Entry("banana", Some("a fruit too"));
    CleanLiteral("banana");
    CleanLiteral("a fruit too");
    assert Line(e) + "" == BananaLine;
    ParseLine(e, "");
    ParseEmpty();
  }

  /** The heading stays glued to the first term through the insert, so
      "apple" is still not found afterwards and a second insert of it would
      add a duplicate record. */
  lemma HeadingHidesFirstTerm()
    ensures !Insert(HeadedFileWithBanana, "apple", "ignored").alreadyExists
  {
    assert "apple" !in Keys(Parse(BananaLine)) by {
      BananaLineRecords();
      KeysCons(Entry("banana", Some("a fruit too")), [Entry("", None)]);
      assert |"banana"| != |"apple"|;
    }
    CleanLiteral("# glossary\n" + "apple");
    CleanLiteral("a fruit");
    HeadingGluedToFirstTerm("# glossary\n", "apple", "a fruit", BananaLine);
  }
}
