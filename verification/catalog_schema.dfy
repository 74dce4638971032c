/** One line of the catalog file, `name (field type [pk], ...)`, parsed the way
    `Catalog.loadSchema` does it with `indexOf`, `substring`, `trim` and
    `split`, including the lines it rejects. */
module CatalogSchema {
  import opened Common
  import opened Types
  import opened JavaString

  /** The reasons the loader gives when it ends the process. */
  const INVALID_ENTRY := "Invalid catalog entry"
  const UNKNOWN_TYPE := "Unknown type"
  const UNKNOWN_ANNOTATION := "Unknown annotation"

  /** One comma-separated entry: a field name, its type, and whether it
      carries the `pk` annotation. */
  datatype FieldEntry = FieldEntry(name: string, ftype: FieldType, isKey: bool)

  /** A parsed line: the table name and its entries in order. */
  datatype SchemaLine = SchemaLine(name: string, fields: seq<FieldEntry>)

  /** What the loader builds from the entries: the type and name arrays and
      the primary key field ("" when no entry is tagged). */
  datatype Columns = Columns(types: seq<FieldType>, names: seq<string>, primaryKey: string)

  /** One entry, split at single spaces after trimming: a name, a type
      compared case-insensitively with `int` and `string`, and an optional
      third word that must be `pk`; a fourth word and beyond is ignored. */
  function ParseField(e: string): (r: Result<FieldEntry>)
    ensures r.Err? ==> r.error.ProcessExit?
  {
    ParseWords(Split(Trim(e), ' '))
  }

  /** The words of one entry: reading the second word fails when there is
      none. */
  function ParseWords(els2: seq<string>): (r: Result<FieldEntry>)
    ensures r.Err? ==> r.error.ProcessExit?
  {
    if |els2| < 2 then Err(ProcessExit(INVALID_ENTRY))
    else
      match ParseType(ToLowerAscii(Trim(els2[1])))
      case None => Err(ProcessExit(UNKNOWN_TYPE))
      case Some(t) =>
        if |els2| == 3 && Trim(els2[2]) != "pk" then Err(ProcessExit(UNKNOWN_ANNOTATION))
        else Ok(FieldEntry(Trim(els2[0]), t, |els2| == 3))
  }

  /** The two type names the loader knows, in lower case. */
  function ParseType(t: string): Option<FieldType>
  {
    if t == "int" then Some(IntType) else if t == "string" then Some(StringType) else None
  }

  /** Every entry parsed in order; the first entry that fails ends the line. */
  function ParseFields(els: seq<string>): (r: Result<seq<FieldEntry>>)
    ensures r.Ok? ==> |r.value| == |els|
    ensures r.Err? ==> r.error.ProcessExit?
  {
    if els == [] then Ok([])
    else
      var front :- ParseFields(els[..|els| - 1]);
      var f :- ParseField(els[|els| - 1]);
      Ok(front + [f])
  }

  /** A failure in a prefix is the failure of the whole list. */
  lemma {:induction false} ParseFieldsPrefixFails(els: seq<string>, k: nat)
    requires k <= |els| && ParseFields(els[..k]).Err?
    ensures ParseFields(els) == ParseFields(els[..k])
    decreases |els|
  {
    if k < |els| {
      var front := els[..|els| - 1];
      assert front[..k] == els[..k];
      ParseFieldsPrefixFails(front, k);
    } else {
      assert els[..k] == els;
    }
  }

  function TypesOf(fs: seq<FieldEntry>): (r: seq<FieldType>)
    ensures |r| == |fs|
    ensures forall i :: 0 <= i < |fs| ==> r[i] == fs[i].ftype
  {
    if fs == [] then [] else TypesOf(fs[..|fs| - 1]) + [fs[|fs| - 1].ftype]
  }

  function NamesOf(fs: seq<FieldEntry>): (r: seq<string>)
    ensures |r| == |fs|
    ensures forall i :: 0 <= i < |fs| ==> r[i] == fs[i].name
  {
    if fs == [] then [] else NamesOf(fs[..|fs| - 1]) + [fs[|fs| - 1].name]
  }

  /** The name of the last entry tagged `pk`, or "" when none is. */
  function KeyOf(fs: seq<FieldEntry>): string
  {
    if fs == [] then ""
    else if fs[|fs| - 1].isKey then fs[|fs| - 1].name
    else KeyOf(fs[..|fs| - 1])
  }

  /** The key is the name of the tagged entry that no later entry follows
      with a tag, and "" exactly when no entry is tagged. */
  lemma {:induction false} KeyIsLastTagged(fs: seq<FieldEntry>, i: nat)
    requires i < |fs| && fs[i].isKey
    requires forall j :: i < j < |fs| ==> !fs[j].isKey
    ensures KeyOf(fs) == fs[i].name
    decreases |fs|
  {
    if i < |fs| - 1 {
      var front := fs[..|fs| - 1];
      KeyIsLastTagged(front, i);
    }
  }

  lemma {:induction false} KeyOfUntagged(fs: seq<FieldEntry>)
    requires forall j :: 0 <= j < |fs| ==> !fs[j].isKey
    ensures KeyOf(fs) == ""
    decreases |fs|
  {
    if fs != [] {
      KeyOfUntagged(fs[..|fs| - 1]);
    }
  }

  function ColumnsOf(fs: seq<FieldEntry>): Columns
  {
    Columns(TypesOf(fs), NamesOf(fs), KeyOf(fs))
  }

  /** One more entry read: the parsed prefix grows by it, and so do the
      columns. */
  lemma CollectStep(els: seq<string>, i: nat, fs: seq<FieldEntry>, f: FieldEntry)
    requires i < |els| && ParseFields(els[..i]) == Ok(fs) && ParseField(els[i]) == Ok(f)
    ensures ParseFields(els[..i + 1]) == Ok(fs + [f])
    ensures ColumnsOf(fs + [f])
         == Columns(TypesOf(fs) + [f.ftype], NamesOf(fs) + [f.name], if f.isKey then f.name else KeyOf(fs))
  {
    assert els[..i + 1][..i] == els[..i];
    assert (fs + [f])[..|fs|] == fs;
  }

  lemma ParseFieldsSnocFails(pre: seq<string>, e: string, fs: seq<FieldEntry>)
    requires ParseFields(pre) == Ok(fs) && ParseField(e).Err?
    ensures ParseFields(pre + [e]) == Err(ParseField(e).error)
  {
    var xs := pre + [e];
    assert xs[..|xs| - 1] == pre && xs[|xs| - 1] == e;
  }

  /** The loader's loop over the entries of one line: it appends each name
      and type and remembers the last `pk` entry, and ends at the first entry
      it cannot read. */
  method CollectFields(els: seq<string>) returns (r: Result<Columns>)
    ensures ParseFields(els).Err? ==> r == Err(ParseFields(els).error)
    ensures ParseFields(els).Ok? ==> r == Ok(ColumnsOf(ParseFields(els).value))
  {
    var names: seq<string> := [];
    var types: seq<FieldType> := [];
    var primaryKey := "";
    ghost var fs: seq<FieldEntry> := [];
    var i := 0;
    while i < |els|
      invariant 0 <= i <= |els|
      invariant ParseFields(els[..i]) == Ok(fs)
      invariant Columns(types, names, primaryKey) == ColumnsOf(fs)
    {
      var f := ParseField(els[i]);
      if f.Err? {
        assert els[..i + 1] == els[..i] + [els[i]];
        ParseFieldsSnocFails(els[..i], els[i], fs);
        ParseFieldsPrefixFails(els, i + 1);
        return Err(f.error);
      }
      CollectStep(els, i, fs, f.value);
      names := names + [f.value.name];
      types := types + [f.value.ftype];
      if f.value.isKey {
        primaryKey := f.value.name;
      }
      fs := fs + [f.value];
      i := i + 1;
    }
    assert els[..i] == els;
    r := Ok(Columns(types, names, primaryKey));
  }

  /** The loader's reading of one line: the cuts at '(' and ')', then the
      loop over the entries; it gives the table name and the columns. */
  method ReadSchemaLine(line: string) returns (r: Result<(string, Columns)>)
    ensures ParseSchemaLine(line).Err? ==> r == Err(ParseSchemaLine(line).error)
    ensures ParseSchemaLine(line).Ok? ==>
      r == Ok((ParseSchemaLine(line).value.name, ColumnsOf(ParseSchemaLine(line).value.fields)))
  {
    var open := IndexOf(line, '(');
    var close := IndexOf(line, ')');
    var head := Substring(line, 0, open);
    if head.Err? {
      return Err(ProcessExit(INVALID_ENTRY));
    }
    var body := Substring(line, open + 1, close);
    if body.Err? {
      return Err(ProcessExit(INVALID_ENTRY));
    }
    var cols := CollectFields(Split(Trim(body.value), ','));
    if cols.Err? {
      return Err(cols.error);
    }
    r := Ok((Trim(head.value), cols.value));
  }

  /** The table name is the trimmed text before the first '(', the entries
      the trimmed text between it and the first ')' split at commas; a line
      without both, or with the ')' first, is an invalid entry. */
  function ParseSchemaLine(line: string): (r: Result<SchemaLine>)
    ensures r.Err? ==> r.error.ProcessExit?
  {
    ParseBetween(line, IndexOf(line, '('), IndexOf(line, ')'))
  }

  /** The line cut at the positions `indexOf` found; `substring` fails when
      either is missing or the ')' comes first. */
  function ParseBetween(line: string, open: int, close: int): (r: Result<SchemaLine>)
    ensures r.Err? ==> r.error.ProcessExit?
    ensures r.Ok? ==> 0 <= open < close <= |line|
  {
    match Substring(line, 0, open)
    case Err(_) => Err(ProcessExit(INVALID_ENTRY))
    case Ok(head) =>
      match Substring(line, open + 1, close)
      case Err(_) => Err(ProcessExit(INVALID_ENTRY))
      case Ok(body) => ParseParts(head, body)
  }

  /** The name is the trimmed head; the entries are the trimmed body split
      at commas. */
  function ParseParts(head: string, body: string): (r: Result<SchemaLine>)
    ensures r.Err? ==> r.error.ProcessExit?
  {
    var fs :- ParseFields(Split(Trim(body), ','));
    Ok(SchemaLine(Trim(head), fs))
  }

  // ---------------------------------------------------------------------
  // The format the parser reads, written out: parsing a well-formed line
  // gives back what was written.

  /** A character a field name may hold: no white space, no separator. */
  predicate IdentChar(c: char)
  {
    ' ' < c && c != ',' && c != '(' && c != ')'
  }

  predicate IsIdent(s: string)
  {
    s != [] && forall i :: 0 <= i < |s| ==> IdentChar(s[i])
  }

  /** A table name: no parenthesis, and no white space at either end. */
  predicate IsTableName(s: string)
  {
    && (forall i :: 0 <= i < |s| ==> s[i] != '(' && s[i] != ')')
    && Clean(s)
  }

  predicate WellFormed(sl: SchemaLine)
  {
    && IsTableName(sl.name)
    && |sl.fields| >= 1
    && forall i :: 0 <= i < |sl.fields| ==> IsIdent(sl.fields[i].name)
  }

  function TypeName(t: FieldType): string
  {
    if t == IntType then "int" else "string"
  }

  function FieldWords(f: FieldEntry): seq<string>
  {
    if f.isKey then [f.name, TypeName(f.ftype), "pk"] else [f.name, TypeName(f.ftype)]
  }

  function RenderField(f: FieldEntry): string
  {
    Join(FieldWords(f), ' ')
  }

  function RenderFields(fs: seq<FieldEntry>): (r: seq<string>)
    ensures |r| == |fs|
    ensures forall i :: 0 <= i < |fs| ==> r[i] == RenderField(fs[i])
  {
    seq(|fs|, i requires 0 <= i < |fs| => RenderField(fs[i]))
  }

  function RenderLine(sl: SchemaLine): string
    requires |sl.fields| >= 1
  {
    (sl.name + " ") + ['('] + (Join(RenderFields(sl.fields), ',') + [')'])
  }

  lemma FieldWordsFree(f: FieldEntry, x: char)
    requires IsIdent(f.name) && !IdentChar(x)
    ensures forall i :: 0 <= i < |FieldWords(f)| ==> x !in FieldWords(f)[i]
  {
    var ws := FieldWords(f);
    forall i | 0 <= i < |ws|
      ensures x !in ws[i]
    {
    }
  }

  lemma RenderFieldShape(f: FieldEntry)
    requires IsIdent(f.name)
    ensures RenderField(f) != []
    ensures !IsTrimmed(RenderField(f)[0])
    ensures !IsTrimmed(RenderField(f)[|RenderField(f)| - 1])
    ensures ',' !in RenderField(f) && ')' !in RenderField(f)
  {
    var ws := FieldWords(f);
    JoinFirst(ws, ' ');
    JoinLast(ws, ' ');
    FieldWordsFree(f, ',');
    FieldWordsFree(f, ')');
    NotInJoin(ws, ' ', ',');
    NotInJoin(ws, ' ', ')');
  }

  /** Both type names are already lower case. */
  lemma TypeNameLower(t: FieldType)
    ensures ToLowerAscii(TypeName(t)) == TypeName(t)
  {
    var n := TypeName(t);
    assert forall i :: 0 <= i < |n| ==> !('A' <= n[i] <= 'Z');
  }

  /** A written type name, trimmed and lower-cased, reads back as its type. */
  lemma ParseTypeName(t: FieldType)
    ensures ParseType(ToLowerAscii(Trim(TypeName(t)))) == Some(t)
  {
    TrimClean(TypeName(t));
    TypeNameLower(t);
    assert ParseType(TypeName(t)) == Some(t);
  }

  lemma ParseFieldWords(f: FieldEntry)
    requires IsIdent(f.name)
    ensures ParseWords(FieldWords(f)) == Ok(f)
  {
    var ws := FieldWords(f);
    assert |ws| >= 2 && ws[0] == f.name && ws[1] == TypeName(f.ftype);
    TrimClean(f.name);
    ParseTypeName(f.ftype);
    if f.isKey {
      assert |ws| == 3 && ws[2] == "pk";
      TrimClean("pk");
      assert ParseWords(ws) == Ok(FieldEntry(f.name, f.ftype, true));
    } else {
      assert |ws| == 2;
      assert ParseWords(ws) == Ok(FieldEntry(f.name, f.ftype, false));
    }
  }

  /** One rendered entry reads back as itself. */
  lemma ParseRenderedField(f: FieldEntry)
    requires IsIdent(f.name)
    ensures ParseField(RenderField(f)) == Ok(f)
  {
    var s := RenderField(f);
    RenderFieldShape(f);
    TrimClean(s);
    FieldWordsFree(f, ' ');
    SplitJoin(FieldWords(f), ' ');
    ParseFieldWords(f);
  }

  lemma {:induction false} ParseRenderedFields(fs: seq<FieldEntry>)
    requires forall i :: 0 <= i < |fs| ==> IsIdent(fs[i].name)
    ensures ParseFields(RenderFields(fs)) == Ok(fs)
    decreases |fs|
  {
    if fs != [] {
      var front := fs[..|fs| - 1];
      assert RenderFields(fs)[..|fs| - 1] == RenderFields(front);
      ParseRenderedFields(front);
      ParseRenderedField(fs[|fs| - 1]);
      assert front + [fs[|fs| - 1]] == fs;
    }
  }

  /** The entries written with commas between them, trimmed and split at
      commas, are the rendered entries again. */
  lemma SplitRenderedFields(fs: seq<FieldEntry>)
    requires |fs| >= 1 && forall i :: 0 <= i < |fs| ==> IsIdent(fs[i].name)
    ensures Split(Trim(Join(RenderFields(fs), ',')), ',') == RenderFields(fs)
    ensures ')' !in Join(RenderFields(fs), ',')
  {
    var ps := RenderFields(fs);
    forall i | 0 <= i < |ps|
      ensures ',' !in ps[i] && ')' !in ps[i] && ps[i] != []
      ensures !IsTrimmed(ps[i][0]) && !IsTrimmed(ps[i][|ps[i]| - 1])
    {
      RenderFieldShape(fs[i]);
    }
    var body := Join(ps, ',');
    JoinFirst(ps, ',');
    JoinLast(ps, ',');
    TrimClean(body);
    SplitJoin(ps, ',');
    NotInJoin(ps, ',', ')');
  }

  /** Where the parser cuts `head(body)` when only the '(' and the ')' shown
      are parentheses: after the head, and at the last character. */
  lemma CutsOf(head: string, body: string)
    requires '(' !in head && ')' !in head && ')' !in body
    ensures var line := head + ['('] + (body + [')']);
      && IndexOf(line, '(') == |head|
      && IndexOf(line, ')') == |line| - 1
      && line[..|head|] == head
      && line[|head| + 1 .. |line| - 1] == body
  {
    var line := head + ['('] + (body + [')']);
    FirstSeparator(head, '(', body + [')']);
    assert line == (head + ['('] + body) + [')'] + [];
    FirstSeparator(head + ['('] + body, ')', []);
  }

  /** Where the parser cuts a rendered line: the first '(' follows the
      table name and a space, the first ')' ends the line. */
  lemma RenderedLineCuts(sl: SchemaLine)
    requires WellFormed(sl)
    ensures var line := RenderLine(sl);
      && IndexOf(line, '(') == |sl.name| + 1
      && IndexOf(line, ')') == |line| - 1
      && line[..|sl.name| + 1] == sl.name + " "
      && line[|sl.name| + 2 .. |line| - 1] == Join(RenderFields(sl.fields), ',')
  {
    var head := sl.name + " ";
    SplitRenderedFields(sl.fields);
    assert '(' !in head && ')' !in head by {
      assert forall i :: 0 <= i < |head| ==> head[i] != '(' && head[i] != ')';
    }
    CutsOf(head, Join(RenderFields(sl.fields), ','));
  }

  /** Round trip: a well-formed line, written in the catalog format, parses
      back to the same table name, entries, types and key tags. */
  lemma ParseRenderedLine(sl: SchemaLine)
    requires WellFormed(sl)
    ensures ParseSchemaLine(RenderLine(sl)) == Ok(sl)
  {
    var line := RenderLine(sl);
    var body := Join(RenderFields(sl.fields), ',');
    RenderedLineCuts(sl);
    ParseBetweenCuts(line, |sl.name| + 1, |line| - 1);
    assert ParseFields(Split(Trim(body), ',')) == Ok(sl.fields) by {
      SplitRenderedFields(sl.fields);
      ParseRenderedFields(sl.fields);
    }
    assert Trim(sl.name + " ") == sl.name by {
      TrimSurrounded([], sl.name, " ");
      assert [] + sl.name + " " == sl.name + " ";
    }
  }

  /** Between two positions in order, the line parses as the trimmed text
      before the first and the trimmed text between them. */
  lemma ParseBetweenCuts(line: string, open: int, close: int)
    requires 0 <= open < close <= |line|
    ensures ParseBetween(line, open, close) == ParseParts(line[..open], line[open + 1..close])
  {
  }

  /** A line with no '(' is rejected as an invalid entry. */
  lemma MissingParenthesisRejected(line: string)
    requires '(' !in line
    ensures ParseSchemaLine(line) == Err(ProcessExit(INVALID_ENTRY))
  {
    IndexOfFirst(line, '(');
  }

  /** An entry of one word has no type: an invalid entry. */
  lemma OneWordEntry(name: string)
    requires IsIdent(name)
    ensures ParseField(name) == Err(ProcessExit(INVALID_ENTRY))
  {
    WordsOf([name]);
  }

  /** An entry of two words is a field without a key tag when the second
      word, lower-cased, names a type, and ends the load otherwise. */
  lemma TwoWordEntry(name: string, ty: string)
    requires IsIdent(name) && IsIdent(ty)
    ensures ParseField(name + " " + ty) ==
      match ParseType(ToLowerAscii(ty))
      case None => Err(ProcessExit(UNKNOWN_TYPE))
      case Some(t) => Ok(FieldEntry(name, t, false))
  {
    WordsOf([name, ty]);
    assert Join([name, ty], ' ') == name + " " + ty;
    TrimClean(name);
    TrimClean(ty);
  }

  /** A third word other than `pk` ends the load. */
  lemma ThreeWordEntry(name: string, ty: string, tag: string)
    requires IsIdent(name) && IsIdent(ty) && IsIdent(tag)
    requires ParseType(ToLowerAscii(ty)).Some?
    ensures ParseField(name + " " + ty + " " + tag) ==
      if tag == "pk" then Ok(FieldEntry(name, ParseType(ToLowerAscii(ty)).value, true))
      else Err(ProcessExit(UNKNOWN_ANNOTATION))
  {
    WordsOf([name, ty, tag]);
    assert Join([tag], ' ') == tag;
    assert Join([ty, tag], ' ') == ty + " " + tag;
    assert Join([name, ty, tag], ' ') == name + " " + (ty + " " + tag);
    assert name + " " + (ty + " " + tag) == name + " " + ty + " " + tag;
    TrimClean(name);
    TrimClean(ty);
    TrimClean(tag);
  }

  /** The type word is compared without regard to the case of its letters. */
  lemma TypeWordIgnoresCase()
    ensures ParseType(ToLowerAscii("INT")) == Some(IntType)
    ensures ParseType(ToLowerAscii("String")) == Some(StringType)
    ensures ParseType(ToLowerAscii("long")) == None
  {
    assert ToLowerAscii("INT") == "int";
    assert ToLowerAscii("String") == "string";
    assert ToLowerAscii("long") == "long";
  }

  /** Splitting a clean entry at spaces gives back its words. */
  lemma WordsOf(ws: seq<string>)
    requires |ws| >= 1
    requires forall i :: 0 <= i < |ws| ==> IsIdent(ws[i])
    ensures Split(Trim(Join(ws, ' ')), ' ') == ws
  {
    forall i | 0 <= i < |ws|
      ensures ws[i] != [] && ' ' !in ws[i]
      ensures !IsTrimmed(ws[i][0]) && !IsTrimmed(ws[i][|ws[i]| - 1])
    {
      assert IdentChar(ws[i][0]) && IdentChar(ws[i][|ws[i]| - 1]);
    }
    JoinFirst(ws, ' ');
    JoinLast(ws, ' ');
    TrimClean(Join(ws, ' '));
    SplitJoin(ws, ' ');
  }
}
