/** The earlier in-memory store of old/main1.go: a map from keys to values
    with `Set`, `Get` and `Del`, and the REPL's command parser, which splits
    a line into whitespace-separated words and reads the first as a command.
    A line is modelled as the sequence of runes Go decodes it into. */
module Legacy {
  import opened Wrappers
  import opened Codec

  // ------------------------------------------------------------ memDB

  /** `memDB`: the map the store's methods update in place. */
  class MemDB {
    var values: map<seq<byte>, seq<byte>>

    /** `NewInMem`: an empty store. */
    constructor ()
      ensures values == map[]
    {
      values := map[];
    }

    /** `Set` stores or overwrites the value of `key`, never fails, and
        leaves every other key as it was. */
    method Set(key: seq<byte>, value: seq<byte>) returns (r: Outcome)
      modifies this
      ensures r == Pass
      ensures values == old(values)[key := value]
      ensures key in values && values[key] == value
      ensures forall k :: k != key ==> (k in values <==> k in old(values))
      ensures forall k :: k != key && k in values ==> values[k] == old(values)[k]
    {
      values := values[key := value];
      r := Pass;
    }

    /** `Get` returns the value stored for `key`, or "key not found". */
    method Get(key: seq<byte>) returns (r: Result<seq<byte>>)
      ensures r.Ok? <==> key in values
      ensures r.Ok? ==> r.value == values[key]
      ensures r.Err? ==> r.msg == "key not found"
    {
      if key in values {
        return Ok(values[key]);
      }
      return Err("key not found");
    }

    /** `Del` removes `key` and returns the value it had; a missing key is
        "key doesn't exist" and leaves the map as it was. */
    method Del(key: seq<byte>) returns (r: Result<seq<byte>>)
      modifies this
      ensures r.Ok? <==> key in old(values)
      ensures r.Ok? ==> r.value == old(values)[key] && values == old(values) - {key}
      ensures r.Err? ==> r.msg == "key doesn't exist" && values == old(values)
      ensures key !in values
    {
      if key in values {
        var v := values[key];
        values := values - {key};
        return Ok(v);
      }
      return Err("key doesn't exist");
    }
  }

  // ------------------------------------------------------------ Words

  /** `unicode.IsSpace`: the Latin-1 white space characters and the other
      runes with the Unicode White_Space property. */
  predicate IsSpace(c: char)
  {
    c == '\t' || c == '\n' || c == '\U{000B}' || c == '\U{000C}' || c == '\r' || c == ' '
    || c == '\U{0085}' || c == '\U{00A0}' || c == '\U{1680}'
    || ('\U{2000}' <= c <= '\U{200A}')
    || c == '\U{2028}' || c == '\U{2029}' || c == '\U{202F}' || c == '\U{205F}'
    || c == '\U{3000}'
  }

  /** A word `strings.Fields` can return: non-empty, with no white space. */
  predicate Token(w: string)
  {
    w != [] && forall i :: 0 <= i < |w| ==> !IsSpace(w[i])
  }

  /** The run of non-space runes at the start of `s`. */
  function Word(s: string): (w: string)
    ensures |w| <= |s| && w == s[..|w|]
    ensures forall i :: 0 <= i < |w| ==> !IsSpace(w[i])
    ensures |w| < |s| ==> IsSpace(s[|w|])
    ensures s != [] && !IsSpace(s[0]) ==> w != []
  {
    if s == [] || IsSpace(s[0]) then [] else [s[0]] + Word(s[1..])
  }

  /** `strings.Fields`: the maximal runs of non-space runes, in order. */
  function Fields(s: string): (ws: seq<string>)
    ensures forall i :: 0 <= i < |ws| ==> Token(ws[i])
    decreases |s|
  {
    if s == [] then []
    else if IsSpace(s[0]) then Fields(s[1..])
    else
      var w := Word(s);
      [w] + Fields(s[|w|..])
  }

  /** The words joined by single spaces: a line whose `Fields` are `ws`. */
  function Join(ws: seq<string>): string
  {
    if |ws| == 0 then []
    else if |ws| == 1 then ws[0]
    else ws[0] + " " + Join(ws[1..])
  }

  /** A line has no words exactly when every rune in it is white space. */
  lemma {:induction false} FieldsBlank(s: string)
    ensures Fields(s) == [] <==> forall i :: 0 <= i < |s| ==> IsSpace(s[i])
    decreases |s|
  {
    if s != [] && IsSpace(s[0]) {
      FieldsBlank(s[1..]);
      assert forall i :: 1 <= i < |s| ==> s[i] == s[1..][i - 1];
    }
  }

  /** A word followed by white space or nothing is read back whole. */
  lemma {:induction false} WordOf(w: string, rest: string)
    requires forall i :: 0 <= i < |w| ==> !IsSpace(w[i])
    requires rest == [] || IsSpace(rest[0])
    ensures Word(w + rest) == w
    decreases |w|
  {
    if w != [] {
      assert (w + rest)[1..] == w[1..] + rest;
      WordOf(w[1..], rest);
    } else {
      assert w + rest == rest;
    }
  }

  /** A word followed by white space or nothing is the first of the
      line's words, ahead of the words of the rest. */
  lemma FieldsCons(w: string, rest: string)
    requires Token(w)
    requires rest == [] || IsSpace(rest[0])
    ensures Fields(w + rest) == [w] + Fields(rest)
  {
    WordOf(w, rest);
    assert (w + rest)[|w|..] == rest;
  }

  /** Splitting words joined by spaces gives the words back. */
  lemma {:induction false} FieldsJoin(ws: seq<string>)
    requires forall i :: 0 <= i < |ws| ==> Token(ws[i])
    ensures Fields(Join(ws)) == ws
    decreases |ws|
  {
    if |ws| == 1 {
      FieldsCons(ws[0], []);
      assert ws[0] + [] == ws[0];
    } else if |ws| > 1 {
      var rest := [' '] + Join(ws[1..]);
      assert Join(ws) == ws[0] + rest;
      FieldsCons(ws[0], rest);
      FieldsLeadingSpace(' ', Join(ws[1..]));
      FieldsJoin(ws[1..]);
      assert ws == [ws[0]] + ws[1..];
    }
  }

  /** White space before a line does not change its words. */
  lemma FieldsLeadingSpace(c: char, s: string)
    requires IsSpace(c)
    ensures Fields([c] + s) == Fields(s)
  {
    assert ([c] + s)[1..] == s;
  }

  // ------------------------------------------------------------ parseCmd

  /** The REPL's commands. */
  datatype Cmd = Get | Set | Del | Ext | Unk

  /** What `parseCmd` returns: the command, its arguments (`None` for a nil
      slice) and the error, if any. */
  datatype Command = Command(cmd: Cmd, args: Option<seq<string>>, err: Option<string>)

  /** The word that names each command (none for `Unk`). */
  function Keyword(c: Cmd): string
  {
    match c
    case Get => "get"
    case Set => "set"
    case Del => "del"
    case Ext => "exit"
    case Unk => ""
  }

  /** `parseCmd`: a blank line is the `Empty` error ("Empty command"); a
      first word of exactly "get", "set" or "del" is that command with the
      other words as arguments; "exit" is `Ext` without arguments; any other
      first word is `Unk` without arguments and without error. */
  function ParseCmd(line: string): (r: Command)
    ensures r.err.Some? <==> Fields(line) == []
    ensures r.err.Some? ==> r == Command(Unk, None, Some("Empty command"))
    ensures r.cmd != Unk ==> r.err.None? && Fields(line)[0] == Keyword(r.cmd)
    ensures r.cmd == Unk && r.err.None? ==>
      Fields(line)[0] !in {"get", "set", "del", "exit"} && r.args.None?
    ensures r.cmd in {Get, Set, Del} ==> r.args == Some(Fields(line)[1..])
    ensures r.cmd == Ext ==> r.args.None?
  {
    var elements := Fields(line);
    if |elements| < 1 then Command(Unk, None, Some("Empty command"))
    else match elements[0]
      case "get" => Command(Get, Some(elements[1..]), None)
      case "set" => Command(Set, Some(elements[1..]), None)
      case "del" => Command(Del, Some(elements[1..]), None)
      case "exit" => Command(Ext, None, None)
      case _ => Command(Unk, None, None)
  }

  /** A line is the `Empty` error exactly when it is blank. */
  lemma ParseBlank(line: string)
    ensures ParseCmd(line) == Command(Unk, None, Some("Empty command"))
        <==> forall i :: 0 <= i < |line| ==> IsSpace(line[i])
  {
    FieldsBlank(line);
  }

  /** Every command but `Unk` has a word. */
  lemma KeywordToken(c: Cmd)
    requires c != Unk
    ensures Token(Keyword(c))
  {
  }

  /** Different commands have different words, none of them outside the
      four `parseCmd` knows. */
  lemma KeywordsDiffer(c: Cmd, d: Cmd)
    requires c != Unk
    ensures Keyword(c) in {"get", "set", "del", "exit"}
    ensures d != Unk && Keyword(c) == Keyword(d) ==> c == d
  {
  }

  /** A command word followed by argument words, joined by spaces, parses
      back to that command and those arguments (`exit` drops them). */
  lemma ParseJoin(c: Cmd, args: seq<string>)
    requires c != Unk
    requires forall i :: 0 <= i < |args| ==> Token(args[i])
    ensures ParseCmd(Join([Keyword(c)] + args))
      == Command(c, if c == Ext then None else Some(args), None)
  {
    var ws := [Keyword(c)] + args;
    KeywordToken(c);
    TokensCons(Keyword(c), args);
    FieldsJoin(ws);
    ParseWords(Join(ws), c);
    assert ws[1..] == args;
  }

  /** Putting a word in front of words keeps them all words. */
  lemma TokensCons(w: string, ws: seq<string>)
    requires Token(w) && forall i :: 0 <= i < |ws| ==> Token(ws[i])
    ensures forall i :: 0 <= i < |[w] + ws| ==> Token(([w] + ws)[i])
  {
  }

  /** A line whose first word names a command parses as that command. */
  lemma ParseWords(line: string, c: Cmd)
    requires c != Unk && Fields(line) != [] && Fields(line)[0] == Keyword(c)
    ensures ParseCmd(line)
      == Command(c, if c == Ext then None else Some(Fields(line)[1..]), None)
  {
    var r := ParseCmd(line);
    KeywordsDiffer(c, r.cmd);
  }

  /** White space before a line does not change how it parses. */
  lemma ParseLeadingSpace(c: char, line: string)
    requires IsSpace(c)
    ensures ParseCmd([c] + line) == ParseCmd(line)
  {
    FieldsLeadingSpace(c, line);
  }
}
