/** Splitting an escaped list (a super-set of comma separated values) into fields:
    escaped_list_separator driven to exhaustion by token_iterator. */
module Tokenizer {

  /** The three character classes; a character may be in more than one. */
  datatype Config = Config(escape: string, separator: string, quote: string)

  datatype Error = CannotEndWithEscape | UnknownEscape

  datatype Result<+T> = Ok(value: T) | Err(error: Error)

  /** One call: the field read, what is left, and whether a separator ended it. */
  datatype Field = Field(tok: string, rest: string, last: bool)

  // ----- what the code computes, on the unread suffix of the text

  function Unescape(cfg: Config, ch: char): Result<char> {
    if ch == 'n' then Ok('\n')
    else if ch in cfg.quote then Ok(ch)
    else if ch in cfg.separator then Ok(ch)
    else if ch in cfg.escape then Ok(ch)
    else Err(UnknownEscape)
  }

  function Scan(cfg: Config, text: string, inQuote: bool, tok: string): (r: Result<Field>)
    ensures r.Ok? ==> |r.value.rest| <= |text|
    ensures r.Ok? && text != "" ==> |r.value.rest| < |text|
    ensures r.Ok? && r.value.rest != "" ==> r.value.last
    decreases |text|
  {
    if text == "" then Ok(Field(tok, "", false))
    else if text[0] in cfg.escape then
      if |text| == 1 then Err(CannotEndWithEscape)
      else match Unescape(cfg, text[1])
        case Ok(ch) => Scan(cfg, text[2..], inQuote, tok + [ch])
        case Err(e) => Err(e)
    else if text[0] in cfg.separator then
      if !inQuote then Ok(Field(tok, text[1..], true))
      else Scan(cfg, text[1..], inQuote, tok + [text[0]])
    else if text[0] in cfg.quote then Scan(cfg, text[1..], !inQuote, tok)
    else Scan(cfg, text[1..], inQuote, tok + [text[0]])
  }

  /** All fields of a text; after a separator one more field is due, even at the end. */
  function Fields(cfg: Config, text: string, last: bool): Result<seq<string>>
    decreases |text|
  {
    if text == "" then Ok(if last then [""] else [])
    else match Scan(cfg, text, false, "")
      case Err(e) => Err(e)
      case Ok(f) =>
        match Fields(cfg, f.rest, f.last)
        case Err(e) => Err(e)
        case Ok(more) => Ok([f.tok] + more)
  }

  // ----- the classes

  class EscapedListSeparator {
    const cfg: Config
    var last: bool

    constructor (cfg: Config)
      ensures this.cfg == cfg && !last
    {
      this.cfg, last := cfg, false;
    }

    method Reset()
      modifies this
      ensures !last
    {
      last := false;
    }

    /** `next` stands on the escape character; afterwards it stands on the escaped one. */
    method DoEscape(text: string, next: nat, tok: string) returns (r: Result<(nat, string)>)
      requires next < |text|
      ensures r == if next + 1 == |text| then Err(CannotEndWithEscape)
                   else match Unescape(cfg, text[next + 1])
                     case Ok(ch) => Ok((next + 1, tok + [ch]))
                     case Err(e) => Err(e)
      ensures next + 1 == |text| ==> r == Err(CannotEndWithEscape)
      ensures next + 1 < |text| ==>
                var ch := text[next + 1];
                r == if ch == 'n' then Ok((next + 1, tok + ['\n']))
                     else if ch in cfg.quote || ch in cfg.separator || ch in cfg.escape
                       then Ok((next + 1, tok + [ch]))
                     else Err(UnknownEscape)
    {
      var i := next + 1;
      if i == |text| {
        return Err(CannotEndWithEscape);
      }
      if text[i] == 'n' {
        return Ok((i, tok + "\n"));
      } else if text[i] in cfg.quote {
        return Ok((i, tok + [text[i]]));
      } else if text[i] in cfg.separator {
        return Ok((i, tok + [text[i]]));
      } else if text[i] in cfg.escape {
        return Ok((i, tok + [text[i]]));
      } else {
        return Err(UnknownEscape);
      }
    }

    /** operator(): reads one field from position `next`. */
    method NextField(text: string, next: nat) returns (r: Result<bool>, next': nat, tok: string)
      requires next <= |text|
      modifies this
      ensures r.Ok? ==> next <= next' <= |text|
      ensures next == |text| ==> r == Ok(old(last)) && !last && tok == "" && next' == |text|
      ensures next < |text| && r.Ok? ==>
                r.value && next' > next &&
                Scan(cfg, text[next..], false, "") == Ok(Field(tok, text[next'..], last))
      ensures next < |text| && r.Err? ==> Scan(cfg, text[next..], false, "") == Err(r.error)
    {
      var inQuote := false;
      tok, next' := "", next;
      if next' == |text| {
        if last {
          last := false;
          return Ok(true), next', tok;
        } else {
          return Ok(false), next', tok;
        }
      }
      last := false;
      while next' != |text|
        invariant next <= next' <= |text| && !last
        invariant Scan(cfg, text[next..], false, "") == Scan(cfg, text[next'..], inQuote, tok)
        decreases |text| - next'
      {
        var i := next';
        assert text[i..][0] == text[i] && text[i..][1..] == text[i + 1..];
        if text[i] in cfg.escape {
          var e := DoEscape(text, i, tok);
          if e.Err? {
            assert i + 1 < |text| ==> text[i..][1] == text[i + 1];
            return Err(e.error), next', tok;
          }
          assert text[i..][1] == text[i + 1] && text[i..][2..] == text[i + 2..];
          next', tok := e.value.0, e.value.1;
        } else if text[i] in cfg.separator {
          if !inQuote {
            next' := next' + 1;
            last := true;
            return Ok(true), next', tok;
          } else {
            tok := tok + [text[i]];
          }
        } else if text[i] in cfg.quote {
          inQuote := !inQuote;
        } else {
          tok := tok + [text[i]];
        }
        next' := next' + 1;
      }
      assert text[next'..] == "";
      return Ok(true), next', tok;
    }
  }

  class TokenIterator {
    const f: EscapedListSeparator
    const text: string
    var begin: nat
    var valid: bool
    var tok: string

    /** Construction over the whole text; initialize() below reads the first field. */
    constructor (f: EscapedListSeparator, text: string)
      ensures this.f == f && this.text == text && begin == 0 && !valid
    {
      this.f, this.text := f, text;
      begin, valid, tok := 0, false, "";
    }

    method Initialize() returns (r: Result<bool>)
      requires begin == 0 && !valid
      modifies this, f
      ensures begin <= |text|
      ensures text == "" ==> r == Ok(false) && !valid
      ensures text != "" && r.Ok? ==>
                valid && Scan(f.cfg, text, false, "") == Ok(Field(tok, text[begin..], f.last))
      ensures text != "" && r.Err? ==> Scan(f.cfg, text, false, "") == Err(r.error)
    {
      f.Reset();
      if begin == |text| {
        valid := false;
        return Ok(valid);
      }
      assert text[0..] == text;
      r := Increment();
    }

    method Increment() returns (r: Result<bool>)
      requires begin <= |text|
      modifies this, f
      ensures old(begin) <= begin <= |text|
      ensures old(begin) == |text| ==>
                r == Ok(old(f.last)) && valid == old(f.last) && !f.last && begin == |text|
      ensures old(begin) == |text| && old(f.last) ==> tok == ""
      ensures old(begin) < |text| && r.Ok? ==>
                valid && begin > old(begin) &&
                Scan(f.cfg, text[old(begin)..], false, "")
                  == Ok(Field(tok, text[begin..], f.last))
      ensures old(begin) < |text| && r.Err? ==>
                Scan(f.cfg, text[old(begin)..], false, "") == Err(r.error)
    {
      var next, t;
      r, next, t := f.NextField(text, begin);
      if r.Ok? {
        begin, valid, tok := next, r.value, t;
      }
    }
  }

  /** Iterating from begin to end collects exactly the fields, or the first error. */
  method Tokenize(cfg: Config, text: string) returns (r: Result<seq<string>>)
    ensures r == Fields(cfg, text, false)
  {
    var f := new EscapedListSeparator(cfg);
    var iter := new TokenIterator(f, text);
    var step := iter.Initialize();
    if step.Err? {
      return Err(step.error);
    }
    var fields: seq<string> := [];
    assert [] + [iter.tok] == [iter.tok];
    while iter.valid
      invariant iter.begin <= |text| && iter.f == f && f.cfg == cfg && iter.text == text
      invariant iter.begin < |text| ==> iter.valid
      invariant Fields(cfg, text, false) ==
                if iter.valid then Prepend(fields + [iter.tok], Fields(cfg, text[iter.begin..], f.last))
                else Ok(fields)
      decreases |text| - iter.begin, f.last, iter.valid
    {
      fields := fields + [iter.tok];
      ghost var from, due := iter.begin, f.last;
      step := iter.Increment();
      if step.Err? {
        return Err(step.error);
      }
      ghost var more := Fields(cfg, text[iter.begin..], f.last);
      if from < |text| {
        PrependTwice(fields, iter.tok, more);
      } else {
        assert text[from..] == "" && text[iter.begin..] == "";
        PrependTwice(fields, "", more);
      }
    }
    return Ok(fields);
  }

  function Prepend(front: seq<string>, r: Result<seq<string>>): Result<seq<string>> {
    match r
    case Ok(fields) => Ok(front + fields)
    case Err(e) => Err(e)
  }

  lemma PrependTwice(front: seq<string>, tok: string, r: Result<seq<string>>)
    ensures Prepend(front, Prepend([tok], r)) == Prepend(front + [tok], r)
    ensures Prepend(front, Ok([tok])) == Prepend(front + [tok], Ok([]))
    ensures Prepend(front, Ok([])) == Ok(front)
  {
    assert front + [] == front;
    assert (front + [tok]) + [] == front + [tok];
    if r.Ok? {
      assert front + ([tok] + r.value) == (front + [tok]) + r.value;
    }
  }
}
