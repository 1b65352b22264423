/** What escaped lists say: every text spelled out as characters and escapes, what reading
    it gives, when reading fails, and lists written so that they can be read back. */
module EscapedLists {
  import opened Tokenizer

  // ----- what a text says

  /** A character standing for itself, or an escape character and the one behind it. */
  datatype Piece = Bare(ch: char) | Escaped(esc: char, ch: char)

  predicate Legal(cfg: Config, p: Piece) {
    match p
    case Bare(ch) => ch !in cfg.escape
    case Escaped(esc, ch) =>
      esc in cfg.escape && (ch == 'n' || ch in cfg.quote || ch in cfg.separator || ch in cfg.escape)
  }

  function SpellOne(p: Piece): string {
    match p
    case Bare(ch) => [ch]
    case Escaped(esc, ch) => [esc, ch]
  }

  function Spell(ps: seq<Piece>): string {
    if ps == [] then "" else Spell(ps[..|ps| - 1]) + SpellOne(ps[|ps| - 1])
  }

  predicate IsSeparator(cfg: Config, p: Piece) {
    p.Bare? && p.ch in cfg.separator
  }

  predicate IsQuote(cfg: Config, p: Piece) {
    p.Bare? && p.ch in cfg.quote && p.ch !in cfg.separator
  }

  /** An odd number of quotes came before. */
  predicate InQuotes(cfg: Config, ps: seq<Piece>) {
    ps != [] && (InQuotes(cfg, ps[..|ps| - 1]) != IsQuote(cfg, ps[|ps| - 1]))
  }

  /** Quotes say nothing, an escaped 'n' is a newline, everything else is itself. */
  function MeaningOne(cfg: Config, p: Piece): string {
    if IsQuote(cfg, p) then "" else if p.Escaped? && p.ch == 'n' then "\n" else [p.ch]
  }

  function Meaning(cfg: Config, ps: seq<Piece>): string {
    if ps == [] then "" else Meaning(cfg, ps[..|ps| - 1]) + MeaningOne(cfg, ps[|ps| - 1])
  }

  /** Pieces of one field: separators stand only between quotes. */
  predicate OneField(cfg: Config, ps: seq<Piece>) {
    forall k :: 0 <= k < |ps| ==>
      Legal(cfg, ps[k]) && (IsSeparator(cfg, ps[k]) ==> InQuotes(cfg, ps[..k]))
  }

  /** Fields with separators between them. */
  function Joined(fields: seq<seq<Piece>>, separators: string): string
    requires |fields| == |separators| + 1
  {
    if separators == "" then Spell(fields[0])
    else Spell(fields[0]) + ([separators[0]] + Joined(fields[1..], separators[1..]))
  }

  predicate WellSplit(cfg: Config, fields: seq<seq<Piece>>, separators: string) {
    |fields| == |separators| + 1 &&
    (forall i :: 0 <= i < |fields| ==> OneField(cfg, fields[i])) &&
    forall i :: 0 <= i < |separators| ==>
      separators[i] in cfg.separator && separators[i] !in cfg.escape && !InQuotes(cfg, fields[i])
  }

  function Meanings(cfg: Config, fields: seq<seq<Piece>>): (r: seq<string>)
    ensures |r| == |fields|
  {
    seq(|fields|, i requires 0 <= i < |fields| => Meaning(cfg, fields[i]))
  }

  lemma ScanPiece(cfg: Config, p: Piece, rest: string, inQuote: bool, tok: string)
    requires Legal(cfg, p) && (IsSeparator(cfg, p) ==> inQuote)
    ensures Scan(cfg, SpellOne(p) + rest, inQuote, tok)
         == Scan(cfg, rest, inQuote != IsQuote(cfg, p), tok + MeaningOne(cfg, p))
  {
    var text := SpellOne(p) + rest;
    match p {
      case Bare(ch) =>
        assert text[0] == ch && text[1..] == rest;
        assert tok + "" == tok;
      case Escaped(esc, ch) =>
        assert text[0] == esc && text[1] == ch && text[2..] == rest;
        assert Unescape(cfg, ch) == Ok(if ch == 'n' then '\n' else ch);
    }
  }

  lemma {:induction false} ScanField(cfg: Config, ps: seq<Piece>, rest: string)
    requires OneField(cfg, ps)
    ensures Scan(cfg, Spell(ps) + rest, false, "") == Scan(cfg, rest, InQuotes(cfg, ps), Meaning(cfg, ps))
    decreases |ps|
  {
    hide Scan, Legal, MeaningOne;
    if ps == [] {
      assert "" + rest == rest;
    } else {
      var n := |ps| - 1;
      assert forall k :: 0 <= k < n ==> ps[..n][..k] == ps[..k];
      ScanField(cfg, ps[..n], SpellOne(ps[n]) + rest);
      assert Spell(ps) + rest == Spell(ps[..n]) + (SpellOne(ps[n]) + rest);
      ScanPiece(cfg, ps[n], rest, InQuotes(cfg, ps[..n]), Meaning(cfg, ps[..n]));
    }
  }

  /** A field ends where the text ends, or at a separator outside quotes. */
  lemma ScanEnds(cfg: Config, inQuote: bool, tok: string, separator: char, rest: string)
    ensures Scan(cfg, "", inQuote, tok) == Ok(Field(tok, "", false))
    ensures separator in cfg.separator && separator !in cfg.escape ==>
              Scan(cfg, [separator] + rest, false, tok) == Ok(Field(tok, rest, true))
  {
    assert ([separator] + rest)[1..] == rest;
  }

  /** Reading fields with separators between them gives what each of them means, trailing
      empty fields included. */
  lemma {:induction false} FieldsOfJoined(cfg: Config, fields: seq<seq<Piece>>, separators: string, last: bool)
    requires WellSplit(cfg, fields, separators)
    requires last || Joined(fields, separators) != ""
    ensures Fields(cfg, Joined(fields, separators), last) == Ok(Meanings(cfg, fields))
    decreases |separators|
  {
    hide Scan, OneField, InQuotes, Spell, Meaning;
    var said := Meaning(cfg, fields[0]);
    if separators == "" {
      var text := Spell(fields[0]);
      assert text + "" == text;
      ScanField(cfg, fields[0], "");
      ScanEnds(cfg, InQuotes(cfg, fields[0]), said, ',', "");
      assert [said] + [] == [said] == Meanings(cfg, fields);
      if text == "" {
        EmptySpelling(cfg, fields[0]);
      }
    } else {
      var rest := Joined(fields[1..], separators[1..]);
      ScanField(cfg, fields[0], [separators[0]] + rest);
      ScanEnds(cfg, false, said, separators[0], rest);
      FieldsOfJoined(cfg, fields[1..], separators[1..], true);
      assert Meanings(cfg, fields) == [said] + Meanings(cfg, fields[1..]);
    }
  }

  lemma EmptySpelling(cfg: Config, ps: seq<Piece>)
    ensures Spell(ps) == "" <==> ps == []
    ensures ps == [] ==> Meaning(cfg, ps) == "" && !InQuotes(cfg, ps)
  {}

  lemma OneMorePiece(cfg: Config, ps: seq<Piece>, p: Piece)
    requires OneField(cfg, ps) && Legal(cfg, p) && (IsSeparator(cfg, p) ==> InQuotes(cfg, ps))
    ensures OneField(cfg, ps + [p])
    ensures Spell(ps + [p]) == Spell(ps) + SpellOne(p)
    ensures InQuotes(cfg, ps + [p]) == (InQuotes(cfg, ps) != IsQuote(cfg, p))
    ensures Meaning(cfg, ps + [p]) == Meaning(cfg, ps) + MeaningOne(cfg, p)
  {
    var longer := ps + [p];
    assert longer[..|ps|] == ps;
    forall k | 0 <= k < |longer|
      ensures Legal(cfg, longer[k]) && (IsSeparator(cfg, longer[k]) ==> InQuotes(cfg, longer[..k]))
    {
      if k < |ps| {
        assert longer[..k] == ps[..k];
      }
    }
  }

  /** The pieces of the field that Scan reads, those already read in front. */
  lemma {:induction false} PiecesRead(cfg: Config, ps: seq<Piece>, text: string)
    returns (all: seq<Piece>, separator: char)
    requires OneField(cfg, ps) && Scan(cfg, text, InQuotes(cfg, ps), Meaning(cfg, ps)).Ok?
    ensures OneField(cfg, all)
    ensures var f := Scan(cfg, text, InQuotes(cfg, ps), Meaning(cfg, ps)).value;
            f.tok == Meaning(cfg, all) &&
            if f.last then
              Spell(ps) + text == Spell(all) + ([separator] + f.rest) && !InQuotes(cfg, all) &&
              separator in cfg.separator && separator !in cfg.escape
            else Spell(ps) + text == Spell(all)
    decreases |text|
  {
    hide OneField, InQuotes, Meaning, Spell;
    all, separator := ps, ',';
    if text == "" {
      assert Spell(ps) + "" == Spell(ps);
    } else if text[0] !in cfg.escape && text[0] in cfg.separator && !InQuotes(cfg, ps) {
      separator := text[0];
      assert text == [separator] + text[1..];
    } else {
      var p := if text[0] in cfg.escape then Escaped(text[0], text[1]) else Bare(text[0]);
      var rest := text[|SpellOne(p)|..];
      assert text == SpellOne(p) + rest;
      ScanPiece(cfg, p, rest, InQuotes(cfg, ps), Meaning(cfg, ps));
      OneMorePiece(cfg, ps, p);
      all, separator := PiecesRead(cfg, ps + [p], rest);
      assert Spell(ps) + text == (Spell(ps) + SpellOne(p)) + rest;
    }
  }

  /** A text that is read without error is fields with separators between them. */
  lemma {:induction false} SplitOf(cfg: Config, text: string, last: bool)
    returns (fields: seq<seq<Piece>>, separators: string)
    requires Fields(cfg, text, last).Ok? && (last || text != "")
    ensures WellSplit(cfg, fields, separators) && text == Joined(fields, separators)
    decreases |text|
  {
    NoPieces(cfg);
    hide Scan, OneField, InQuotes, Meaning, Spell;
    if text == "" {
      fields, separators := [[]], "";
    } else {
      var ps, separator := PiecesRead(cfg, [], text);
      var f := Scan(cfg, text, false, "").value;
      assert "" + text == text;
      if f.last {
        var more, behind := SplitOf(cfg, f.rest, true);
        fields, separators := [ps] + more, [separator] + behind;
        assert fields[1..] == more && separators[1..] == behind;
      } else {
        fields, separators := [ps], "";
      }
    }
  }

  lemma NoPieces(cfg: Config)
    ensures OneField(cfg, []) && !InQuotes(cfg, []) && Spell([]) == "" && Meaning(cfg, []) == ""
  {}

  /** What every text says, exactly: it reads as a list of fields if and only if it is those
      fields, spelled in some way, with separators between them. */
  lemma ReadsExactly(cfg: Config, text: string, values: seq<string>)
    requires text != ""
    ensures Fields(cfg, text, false) == Ok(values) <==>
            exists fields, separators :: WellSplit(cfg, fields, separators) &&
              text == Joined(fields, separators) && values == Meanings(cfg, fields)
  {
    if Fields(cfg, text, false) == Ok(values) {
      var fields, separators := SplitOf(cfg, text, false);
      FieldsOfJoined(cfg, fields, separators, false);
    }
    if exists fields, separators :: WellSplit(cfg, fields, separators) &&
         text == Joined(fields, separators) && values == Meanings(cfg, fields) {
      var fields, separators :| WellSplit(cfg, fields, separators) &&
        text == Joined(fields, separators) && values == Meanings(cfg, fields);
      FieldsOfJoined(cfg, fields, separators, false);
    }
  }

  // ----- texts that cannot be read

  predicate AllLegal(cfg: Config, ps: seq<Piece>) {
    forall k :: 0 <= k < |ps| ==> Legal(cfg, ps[k])
  }

  /** An escape character with nothing behind it, or with something it cannot stand before. */
  predicate Broken(cfg: Config, tail: string, e: Error) {
    tail != "" && tail[0] in cfg.escape &&
    if |tail| == 1 then e == CannotEndWithEscape
    else e == UnknownEscape && !Legal(cfg, Escaped(tail[0], tail[1]))
  }

  lemma {:induction false} SpellCons(p: Piece, ps: seq<Piece>)
    ensures Spell([p] + ps) == SpellOne(p) + Spell(ps)
    decreases |ps|
  {
    hide SpellOne;
    if ps == [] {
      assert [p] + ps == [p] && [p][..0] == [];
    } else {
      var n := |ps| - 1;
      assert ([p] + ps)[..n + 1] == [p] + ps[..n];
      SpellCons(p, ps[..n]);
    }
  }

  lemma NotLegal(cfg: Config, p: Piece)
    requires !Legal(cfg, p)
    ensures p.Bare? ==> p.ch in cfg.escape
  {}

  /** Any text is legal pieces up to its end or up to a broken escape. */
  lemma {:induction false} PiecesOfText(cfg: Config, text: string) returns (ps: seq<Piece>, tail: string)
    ensures AllLegal(cfg, ps) && text == Spell(ps) + tail
    ensures tail == "" || exists e :: Broken(cfg, tail, e)
    decreases |text|
  {
    hide Spell, Legal;
    NoPieces(cfg);
    if text == "" {
      ps, tail := [], "";
    } else {
      var p := if text[0] in cfg.escape && |text| > 1 then Escaped(text[0], text[1]) else Bare(text[0]);
      if Legal(cfg, p) {
        var rest := text[|SpellOne(p)|..];
        var more;
        more, tail := PiecesOfText(cfg, rest);
        ps := [p] + more;
        SpellCons(p, more);
        assert text == SpellOne(p) + rest;
        assert SpellOne(p) + (Spell(more) + tail) == (SpellOne(p) + Spell(more)) + tail;
      } else {
        ps, tail := [], text;
        NotLegal(cfg, p);
        assert "" + text == text;
        assert Broken(cfg, tail, if |tail| == 1 then CannotEndWithEscape else UnknownEscape);
      }
    }
  }

  lemma ScanTail(cfg: Config, tail: string, e: Error, inQuote: bool, tok: string)
    requires tail == "" || Broken(cfg, tail, e)
    ensures Scan(cfg, tail, inQuote, tok) == if tail == "" then Ok(Field(tok, "", false)) else Err(e)
  {}

  /** Scanning legal pieces stops at a separator with `k` pieces used, or (k is 0) goes on
      to the tail. */
  lemma {:induction false} ScanLegal(cfg: Config, ps: seq<Piece>, tail: string, e: Error, inQuote: bool, tok: string)
    returns (k: nat)
    requires AllLegal(cfg, ps) && (tail == "" || Broken(cfg, tail, e))
    ensures k <= |ps|
    ensures var r := Scan(cfg, Spell(ps) + tail, inQuote, tok);
            if k > 0 then r.Ok? && r.value.last && r.value.rest == Spell(ps[k..]) + tail
            else if tail == "" then r.Ok? && r.value.rest == "" && !r.value.last
            else r == Err(e)
    decreases |ps|
  {
    hide Scan, Legal, Broken, IsSeparator, IsQuote, MeaningOne, Spell, SpellOne;
    NoPieces(cfg);
    if ps == [] {
      ScanTail(cfg, tail, e, inQuote, tok);
      assert Spell(ps) + tail == tail;
      k := 0;
    } else {
      var p, more := ps[0], ps[1..];
      assert ps == [p] + more;
      SpellCons(p, more);
      assert Spell(ps) + tail == SpellOne(p) + (Spell(more) + tail);
      if IsSeparator(cfg, p) && !inQuote {
        ScanSeparator(cfg, p, Spell(more) + tail, tok);
        k := 1;
      } else {
        ScanPiece(cfg, p, Spell(more) + tail, inQuote, tok);
        var j := ScanLegal(cfg, more, tail, e, inQuote != IsQuote(cfg, p), tok + MeaningOne(cfg, p));
        k := if j > 0 then j + 1 else 0;
        assert j > 0 ==> more[j..] == ps[k..];
      }
    }
  }

  lemma ScanSeparator(cfg: Config, p: Piece, rest: string, tok: string)
    requires Legal(cfg, p) && IsSeparator(cfg, p)
    ensures Scan(cfg, SpellOne(p) + rest, false, tok) == Ok(Field(tok, rest, true))
  {
    ScanEnds(cfg, false, tok, p.ch, rest);
  }

  lemma {:induction false} FieldsOfLegal(cfg: Config, ps: seq<Piece>, tail: string, e: Error, last: bool)
    requires AllLegal(cfg, ps) && (tail == "" || Broken(cfg, tail, e))
    ensures if tail == "" then Fields(cfg, Spell(ps) + tail, last).Ok?
            else Fields(cfg, Spell(ps) + tail, last) == Err(e)
    decreases |ps|
  {
    hide Scan;
    if Spell(ps) + tail != "" {
      var k := ScanLegal(cfg, ps, tail, e, false, "");
      if k > 0 {
        FieldsOfLegal(cfg, ps[k..], tail, e, true);
      }
    }
  }

  /** Reading fails, exactly: if and only if an escape is broken, with that escape's error. */
  lemma FailsExactly(cfg: Config, text: string, e: Error)
    ensures Fields(cfg, text, false) == Err(e) <==>
            exists ps, tail :: AllLegal(cfg, ps) && Broken(cfg, tail, e) && text == Spell(ps) + tail
  {
    hide AllLegal, Spell, Fields, Broken;
    if Fields(cfg, text, false) == Err(e) {
      var ps, tail := PiecesOfText(cfg, text);
      if tail == "" {
        FieldsOfLegal(cfg, ps, tail, e, false);
      } else {
        var d :| Broken(cfg, tail, d);
        BrokenIsNotEmpty(cfg, tail, d);
        FieldsOfLegal(cfg, ps, tail, d, false);
      }
    }
    if exists ps, tail :: AllLegal(cfg, ps) && Broken(cfg, tail, e) && text == Spell(ps) + tail {
      var ps, tail :| AllLegal(cfg, ps) && Broken(cfg, tail, e) && text == Spell(ps) + tail;
      BrokenIsNotEmpty(cfg, tail, e);
      FieldsOfLegal(cfg, ps, tail, e, false);
    }
  }

  lemma BrokenIsNotEmpty(cfg: Config, tail: string, e: Error)
    requires Broken(cfg, tail, e)
    ensures tail != ""
  {}

  // ----- writing a list

  datatype Style = Plain | Quoted

  /** A field to be written, bare or between quotes. */
  datatype Item = Item(value: string, style: Style)

  /** The characters the writer uses, and whether it writes newlines as an escaped 'n'. */
  datatype Writer = Writer(cfg: Config, escape: char, separator: char, quote: char, newlines: bool)

  /** Inside quotes a separator may stand as it is. */
  predicate NeedsEscape(w: Writer, style: Style, ch: char) {
    ch in w.cfg.escape || ch in w.cfg.quote || (style.Plain? && ch in w.cfg.separator) ||
    (w.newlines && ch == '\n')
  }

  function WritePiece(w: Writer, style: Style, ch: char): Piece {
    if !NeedsEscape(w, style, ch) then Bare(ch)
    else Escaped(w.escape, if w.newlines && ch == '\n' then 'n' else ch)
  }

  function WritePieces(w: Writer, style: Style, s: string): (ps: seq<Piece>)
    ensures |ps| == |s|
  {
    seq(|s|, i requires 0 <= i < |s| => WritePiece(w, style, s[i]))
  }

  function WriteItem(w: Writer, item: Item): seq<Piece> {
    match item.style
    case Plain => WritePieces(w, Plain, item.value)
    case Quoted => [Bare(w.quote)] + WritePieces(w, Quoted, item.value) + [Bare(w.quote)]
  }

  function WriteItems(w: Writer, items: seq<Item>): (fields: seq<seq<Piece>>)
    ensures |fields| == |items|
  {
    seq(|items|, i requires 0 <= i < |items| => WriteItem(w, items[i]))
  }

  function WriteList(w: Writer, items: seq<Item>): string {
    if items == [] then ""
    else Joined(WriteItems(w, items), seq(|items| - 1, i => w.separator))
  }

  /** The writer's characters mean what they should; each is only needed where used. */
  predicate CanWriteItem(w: Writer, item: Item) {
    (item.style.Quoted? ==>
       w.quote in w.cfg.quote && w.quote !in w.cfg.escape && w.quote !in w.cfg.separator) &&
    (forall i :: 0 <= i < |item.value| && NeedsEscape(w, item.style, item.value[i]) ==>
       w.escape in w.cfg.escape)
  }

  predicate CanWrite(w: Writer, items: seq<Item>) {
    (forall i :: 0 <= i < |items| ==> CanWriteItem(w, items[i])) &&
    (|items| > 1 ==> w.separator in w.cfg.separator && w.separator !in w.cfg.escape)
  }

  /** An escaped 'n' is always read as a newline, even where 'n' had to be escaped. */
  function ReadBackChars(w: Writer, style: Style, s: string): (r: string)
    ensures |r| == |s|
  {
    seq(|s|, i requires 0 <= i < |s| =>
      if s[i] == 'n' && NeedsEscape(w, style, 'n') then '\n' else s[i])
  }

  function ReadBack(w: Writer, items: seq<Item>): (fields: seq<string>)
    ensures |fields| == |items|
  {
    seq(|items|, i requires 0 <= i < |items| => ReadBackChars(w, items[i].style, items[i].value))
  }

  /** The characters of an item, behind an opening quote if it has one, are pieces of one
      field and mean what is read back. */
  lemma {:induction false} CharsAreOneField(w: Writer, item: Item, n: nat)
    requires CanWriteItem(w, item) && n <= |item.value|
    ensures var open: seq<Piece> := if item.style.Quoted? then [Bare(w.quote)] else [];
            var ps := open + WritePieces(w, item.style, item.value[..n]);
            OneField(w.cfg, ps) && InQuotes(w.cfg, ps) == item.style.Quoted? &&
            Meaning(w.cfg, ps) == ReadBackChars(w, item.style, item.value[..n])
    decreases n
  {
    hide OneField, InQuotes, Meaning, ReadBackChars, WritePieces, WritePiece, IsQuote, MeaningOne, Legal;
    var open: seq<Piece> := if item.style.Quoted? then [Bare(w.quote)] else [];
    if n == 0 {
      Opening(w, item);
      assert open + WritePieces(w, item.style, item.value[..0]) == open;
    } else {
      var s, ch := item.value[..n - 1], item.value[n - 1];
      var ps, p := open + WritePieces(w, item.style, s), WritePiece(w, item.style, ch);
      CharsAreOneField(w, item, n - 1);
      assert item.value[..n] == s + [ch];
      WriteOneMore(w, item.style, s, ch);
      WrittenPiece(w, item.style, ch);
      assert open + WritePieces(w, item.style, s + [ch]) == ps + [p];
      OneMorePiece(w.cfg, ps, p);
    }
  }

  lemma Opening(w: Writer, item: Item)
    requires CanWriteItem(w, item)
    ensures var open: seq<Piece> := if item.style.Quoted? then [Bare(w.quote)] else [];
            OneField(w.cfg, open) && InQuotes(w.cfg, open) == item.style.Quoted? &&
            Meaning(w.cfg, open) == "" == ReadBackChars(w, item.style, item.value[..0])
  {
    NoPieces(w.cfg);
    if item.style.Quoted? {
      assert [] + [Bare(w.quote)] == [Bare(w.quote)] && "" + "" == "";
      OneMorePiece(w.cfg, [], Bare(w.quote));
    }
  }

  lemma WriteOneMore(w: Writer, style: Style, s: string, ch: char)
    ensures WritePieces(w, style, s + [ch]) == WritePieces(w, style, s) + [WritePiece(w, style, ch)]
    ensures ReadBackChars(w, style, s + [ch]) == ReadBackChars(w, style, s) + ReadBackChars(w, style, [ch])
  {}

  lemma WrittenPiece(w: Writer, style: Style, ch: char)
    requires NeedsEscape(w, style, ch) ==> w.escape in w.cfg.escape
    ensures var p := WritePiece(w, style, ch);
            Legal(w.cfg, p) && (IsSeparator(w.cfg, p) ==> style.Quoted?) && !IsQuote(w.cfg, p) &&
            MeaningOne(w.cfg, p) == ReadBackChars(w, style, [ch])
  {}

  lemma ItemIsOneField(w: Writer, item: Item)
    requires CanWriteItem(w, item)
    ensures OneField(w.cfg, WriteItem(w, item)) && !InQuotes(w.cfg, WriteItem(w, item))
    ensures Meaning(w.cfg, WriteItem(w, item)) == ReadBackChars(w, item.style, item.value)
  {
    hide OneField, InQuotes, Meaning, ReadBackChars, WritePieces;
    var n := |item.value|;
    CharsAreOneField(w, item, n);
    assert item.value[..n] == item.value;
    var inner := WritePieces(w, item.style, item.value);
    if item.style.Quoted? {
      OneMorePiece(w.cfg, [Bare(w.quote)] + inner, Bare(w.quote));
      assert Meaning(w.cfg, [Bare(w.quote)] + inner) + "" == Meaning(w.cfg, [Bare(w.quote)] + inner);
    } else {
      assert [] + inner == inner;
    }
  }

  /** Reading any written list: every field comes back, with trailing empty fields, except
      that an empty text has no field at all. */
  lemma FieldsOfWritten(w: Writer, items: seq<Item>, last: bool)
    requires CanWrite(w, items) && items != []
    requires last || WriteList(w, items) != ""
    ensures Fields(w.cfg, WriteList(w, items), last) == Ok(ReadBack(w, items))
  {
    hide Fields, OneField, InQuotes, Meaning, ReadBackChars, WriteItem, CanWriteItem;
    forall i | 0 <= i < |items|
      ensures OneField(w.cfg, WriteItem(w, items[i])) && !InQuotes(w.cfg, WriteItem(w, items[i]))
      ensures Meaning(w.cfg, WriteItem(w, items[i])) == ReadBackChars(w, items[i].style, items[i].value)
    {
      ItemIsOneField(w, items[i]);
    }
    FieldsOfJoined(w.cfg, WriteItems(w, items), seq(|items| - 1, i => w.separator), last);
    assert Meanings(w.cfg, WriteItems(w, items)) == ReadBack(w, items);
  }

  function Values(items: seq<Item>): (fields: seq<string>)
    ensures |fields| == |items|
  {
    seq(|items|, i requires 0 <= i < |items| => items[i].value)
  }

  /** Some field holds an 'n' that the writer has to escape. */
  ghost predicate LosesN(w: Writer, items: seq<Item>) {
    exists i :: 0 <= i < |items| && 'n' in items[i].value && NeedsEscape(w, items[i].style, 'n')
  }

  /** The round trip, exactly: a written list is read back as it was if and only if it is
      not one bare empty field and no 'n' had to be escaped. */
  lemma RoundTrip(w: Writer, items: seq<Item>)
    requires CanWrite(w, items)
    ensures Fields(w.cfg, WriteList(w, items), false) == Ok(Values(items))
       <==> items != [Item("", Plain)] && !LosesN(w, items)
  {
    if items == [] {
      assert Values(items) == [];
    } else if WriteList(w, items) == "" {
      OnlyEmptyWritesNothing(w, items);
      assert Values(items)[0] == "";
    } else {
      FieldsOfWritten(w, items, false);
      ReadBackExact(w, items);
      assert items == [Item("", Plain)] ==> WriteList(w, items) == "";
    }
  }

  lemma OnlyEmptyWritesNothing(w: Writer, items: seq<Item>)
    requires items != [] && WriteList(w, items) == ""
    ensures items == [Item("", Plain)]
  {
    if |items| == 1 {
      assert items[0].value == "";
    }
  }

  lemma ReadBackExact(w: Writer, items: seq<Item>)
    ensures ReadBack(w, items) == Values(items) <==> !LosesN(w, items)
  {
    if LosesN(w, items) {
      var i :| 0 <= i < |items| && 'n' in items[i].value && NeedsEscape(w, items[i].style, 'n');
      var j :| 0 <= j < |items[i].value| && items[i].value[j] == 'n';
      assert ReadBack(w, items)[i][j] == '\n';
      assert Values(items)[i][j] == 'n';
    } else {
      forall i | 0 <= i < |items|
        ensures ReadBack(w, items)[i] == Values(items)[i]
      {
        assert ReadBackChars(w, items[i].style, items[i].value) == items[i].value;
      }
    }
  }

  /** The default separator characters, with newlines escaped or not, lose nothing but the single empty field. */
  lemma DefaultRoundTrip(items: seq<Item>, newlines: bool)
    ensures var w := Writer(Config("\\", ",", "\""), '\\', ',', '"', newlines);
            Fields(w.cfg, WriteList(w, items), false) == Ok(Values(items))
            <==> items != [Item("", Plain)]
  {
    RoundTrip(Writer(Config("\\", ",", "\""), '\\', ',', '"', newlines), items);
  }

  /** With 'n' as the separator, even one field "n" is not read back. */
  lemma SeparatorNFails()
    ensures var w := Writer(Config("\\", "n", "\""), '\\', 'n', '"', false);
            Fields(w.cfg, WriteList(w, [Item("n", Plain)]), false) != Ok(["n"])
  {
    var w := Writer(Config("\\", "n", "\""), '\\', 'n', '"', false);
    var items := [Item("n", Plain)];
    RoundTrip(w, items);
    assert items[0].value[0] == 'n' && NeedsEscape(w, items[0].style, 'n');
    assert Values(items) == ["n"];
  }
}
