/**
 * The grammar sanitiser shared by the compilers (`Sanitize.to_key` in
 * examples/f1_c_gen.py and grammars/f1_g4_translate.py,
 * `Sanitize.split_tokens`), and the older compiler's `cheap_chars`, which
 * turns an escaped literal into the pieces of C character literals.
 */
module Sanitize {
  import opened Wrappers
  import opened Text
  import opened Grammars

  // ---------------------------------------------------------------------
  // to_key
  // ---------------------------------------------------------------------

  /**
   * `to_key`: `-` becomes `_`, brackets and braces are spelled out, and the
   * Python keywords `import`, `class` and `def` are wrapped in `X`, in that
   * order.
   */
  function ToKey(k: string): string
  {
    Keywords(Braces(Brackets(ReplaceAll(k, "-", "_"))))
  }

  function Brackets(s: string): string
  {
    ReplaceAll(ReplaceAll(s, "[", "Osq"), "]", "Csq")
  }

  function Braces(s: string): string
  {
    ReplaceAll(ReplaceAll(s, "{", "Obr"), "}", "Cbr")
  }

  function Keywords(s: string): string
  {
    ReplaceAll(ReplaceAll(ReplaceAll(s, "import", "XimportX"), "class", "XclassX"), "def", "XdefX")
  }

  lemma BracketsSpec(s: string, d: char)
    requires d !in s && d !in "OsqCsq"
    ensures d !in Brackets(s) && '[' !in Brackets(s) && ']' !in Brackets(s)
  {
    ReplaceKeepsAbsent(s, "[", "Osq", d);
    ReplaceKeepsAbsent(ReplaceAll(s, "[", "Osq"), "]", "Csq", d);
    ReplaceCharRemoves(s, '[', "Osq");
    ReplaceKeepsAbsent(ReplaceAll(s, "[", "Osq"), "]", "Csq", '[');
    ReplaceCharRemoves(ReplaceAll(s, "[", "Osq"), ']', "Csq");
  }

  lemma BracesSpec(s: string, d: char)
    requires d !in s && d !in "ObrCbr"
    ensures d !in Braces(s) && '{' !in Braces(s) && '}' !in Braces(s)
  {
    ReplaceKeepsAbsent(s, "{", "Obr", d);
    ReplaceKeepsAbsent(ReplaceAll(s, "{", "Obr"), "}", "Cbr", d);
    ReplaceCharRemoves(s, '{', "Obr");
    ReplaceKeepsAbsent(ReplaceAll(s, "{", "Obr"), "}", "Cbr", '{');
    ReplaceCharRemoves(ReplaceAll(s, "{", "Obr"), '}', "Cbr");
  }

  /** The characters `to_key` removes. */
  predicate Special(d: char)
  {
    d == '-' || d == '[' || d == ']' || d == '{' || d == '}'
  }

  lemma KeywordsKeep(s: string, d: char)
    requires d !in s && Special(d)
    ensures d !in Keywords(s)
  {
    assert d !in "XimportX" && d !in "XclassX" && d !in "XdefX";
    ReplaceKeepsAbsent(s, "import", "XimportX", d);
    ReplaceKeepsAbsent(ReplaceAll(s, "import", "XimportX"), "class", "XclassX", d);
    ReplaceKeepsAbsent(ReplaceAll(ReplaceAll(s, "import", "XimportX"), "class", "XclassX"), "def", "XdefX", d);
  }

  /** Before the keywords are wrapped, no special character is left. */
  lemma SymbolsGone(k: string, d: char)
    requires Special(d)
    ensures d !in Braces(Brackets(ReplaceAll(k, "-", "_")))
  {
    var s1 := ReplaceAll(k, "-", "_");
    ReplaceCharRemoves(k, '-', "_");
    BracketsSpec(s1, '-');
    var s2 := Brackets(s1);
    if d == '-' || d == '[' || d == ']' {
      BracesSpec(s2, d);
    } else {
      BracesSpec(s2, '-');
    }
  }

  /** The sanitised key contains no `-`, `[`, `]`, `{` or `}`. */
  lemma ToKeyClean(k: string, d: char)
    requires Special(d)
    ensures d !in ToKey(k)
  {
    SymbolsGone(k, d);
    KeywordsKeep(Braces(Brackets(ReplaceAll(k, "-", "_"))), d);
  }

  /** A key that needs no sanitising is left as it is. */
  lemma ToKeyIdentity(k: string)
    requires '-' !in k && '[' !in k && ']' !in k && '{' !in k && '}' !in k
    requires !Contains(k, "import") && !Contains(k, "class") && !Contains(k, "def")
    ensures ToKey(k) == k
  {
    ReplaceCharAbsent(k, '-', "_");
    ReplaceCharAbsent(k, '[', "Osq");
    ReplaceCharAbsent(k, ']', "Csq");
    ReplaceCharAbsent(k, '{', "Obr");
    ReplaceCharAbsent(k, '}', "Cbr");
    ReplaceAbsentIdentity(k, "import", "XimportX");
    ReplaceAbsentIdentity(k, "class", "XclassX");
    ReplaceAbsentIdentity(k, "def", "XdefX");
  }

  /** Sanitising is not injective: a bracket and its spelled-out name give the same key. */
  lemma ToKeyCollides()
    ensures ToKey("[") == ToKey("Osq") == "Osq"
  {
    assert ReplaceAll("[", "-", "_") == "[";
    assert ReplaceAll("[", "[", "Osq") == "Osq";
    ReplaceCharAbsent("Osq", '-', "_");
    ReplaceCharAbsent("Osq", '[', "Osq");
    ReplaceCharAbsent("Osq", ']', "Csq");
    ReplaceCharAbsent("Osq", '{', "Obr");
    ReplaceCharAbsent("Osq", '}', "Cbr");
  }

  // ---------------------------------------------------------------------
  // split_tokens
  // ---------------------------------------------------------------------

  /**
   * `split_tokens(t, grammar)`: a key stays one token; any other token is
   * split into its characters (the `esc` table maps each of its characters
   * to itself, so it changes nothing).
   */
  function SplitTokens(t: string, g: map<string, seq<Rule>>): (r: seq<string>)
    ensures t in g ==> r == [t]
    ensures t !in g ==> |r| == |t| && forall i :: 0 <= i < |t| ==> r[i] == [t[i]]
  {
    if t in g then [t] else seq(|t|, i requires 0 <= i < |t| => [t[i]])
  }

  /** Splitting loses no text: the pieces concatenate back to the token. */
  lemma {:induction false} SplitTokensConcat(t: string, g: map<string, seq<Rule>>)
    ensures Concat(SplitTokens(t, g)) == t
    decreases |t|
  {
    if t !in g && t != [] {
      if t[1..] in g {
        CharsConcat(t);
      } else {
        SplitTokensConcat(t[1..], g);
        assert SplitTokens(t, g)[1..] == SplitTokens(t[1..], g);
      }
    }
  }

  lemma {:induction false} CharsConcat(t: string)
    ensures Concat(seq(|t|, i requires 0 <= i < |t| => [t[i]])) == t
    decreases |t|
  {
    if t != [] {
      CharsConcat(t[1..]);
      assert seq(|t|, i requires 0 <= i < |t| => [t[i]])[1..] == seq(|t[1..]|, i requires 0 <= i < |t[1..]| => [t[1..][i]]);
    }
  }

  // ---------------------------------------------------------------------
  // cheap_chars
  // ---------------------------------------------------------------------

  /** What `cheap_chars` raises: unpacking past the end, or a key missing from its table. */
  datatype EscapeError = Truncated | UnknownEscape(c: char)

  /** The `escaped` table: the character after a backslash, and what it stands for. */
  function Escaped(c: char): Option<string>
  {
    if c == 't' then Some("\t")
    else if c == 'n' then Some("\n")
    else if c == '\'' then Some("\\'")
    else if c == '\\' then Some("\\\\")
    else if c == 'r' then Some("\r")
    else None
  }

  /**
   * The table with the line breaks kept as escapes, since a C character
   * constant cannot hold a raw new-line (section 6.4.4.4 of ISO/IEC 9899:2011).
   */
  function EscapedFixed(c: char): Option<string>
  {
    if c == 'n' then Some("\\n")
    else if c == 'r' then Some("\\r")
    else Escaped(c)
  }

  function Cons(p: string, r: Result<seq<string>, EscapeError>): Result<seq<string>, EscapeError>
  {
    if r.Err? then r else Ok([p] + r.value)
  }

  function Prepend(ps: seq<string>, r: Result<seq<string>, EscapeError>): Result<seq<string>, EscapeError>
  {
    if r.Err? then r else Ok(ps + r.value)
  }

  lemma PrependCons(ps: seq<string>, p: string, r: Result<seq<string>, EscapeError>)
    ensures Prepend(ps + [p], r) == Prepend(ps, Cons(p, r))
  {
    if r.Ok? {
      assert ps + [p] + r.value == ps + ([p] + r.value);
    }
  }

  /** The quote piece as written: `"\'"` in Python is a bare quote. */
  const BareQuote: string := "'"
  /** The quote piece the comment asks for, escaped for a single-quoted C literal. */
  const EscapedQuote: string := "\\'"

  /**
   * `cheap_chars(s)`: an escape `\c` becomes the table's entry for `c`, a
   * quote becomes the quote piece, any other character stays as it is.
   * `fixed` selects the corrected table and quote piece, and escapes a raw
   * line break too; `false` is the code as written.
   */
  function CheapChars(s: string, fixed: bool): (r: Result<seq<string>, EscapeError>)
    decreases |s|
  {
    if s == [] then Ok([])
    else if s[0] == '\\' then
      if |s| == 1 then Err(Truncated)
      else
        match (if fixed then EscapedFixed(s[1]) else Escaped(s[1]))
        case None => Err(UnknownEscape(s[1]))
        case Some(e) => Cons(e, CheapChars(s[2..], fixed))
    else if s[0] == '\'' then Cons(if fixed then EscapedQuote else BareQuote, CheapChars(s[1..], fixed))
    else Cons(CPiece(s[0], fixed), CheapChars(s[1..], fixed))
  }

  /** The loop of `cheap_chars`, consuming the string from the front. */
  method CheapCharsLoop(s: string) returns (r: Result<seq<string>, EscapeError>)
    ensures r == CheapChars(s, false)
  {
    var rest := s;
    var slst: seq<string> := [];
    assert CheapChars(s, false).Ok? ==> [] + CheapChars(s, false).value == CheapChars(s, false).value;
    while rest != []
      invariant CheapChars(s, false) == Prepend(slst, CheapChars(rest, false))
      decreases |rest|
    {
      var c := rest[0];
      var tail := rest[1..];
      if c == '\\' {
        if tail == [] {
          return Err(Truncated);
        }
        var c1 := tail[0];
        match Escaped(c1)
        case None =>
          return Err(UnknownEscape(c1));
        case Some(e) =>
          assert tail[1..] == rest[2..];
          assert CheapChars(rest, false) == Cons(e, CheapChars(tail[1..], false));
          PrependCons(slst, e, CheapChars(tail[1..], false));
          slst, rest := slst + [e], tail[1..];
      } else if c == '\'' {
        PrependCons(slst, BareQuote, CheapChars(tail, false));
        slst, rest := slst + [BareQuote], tail;
      } else {
        PrependCons(slst, [c], CheapChars(tail, false));
        slst, rest := slst + [[c]], tail;
      }
    }
    assert slst + [] == slst;
    return Ok(slst);
  }

  /**
   * A piece that can stand between single quotes in C: one character other
   * than a quote, a backslash or a line break, or one of the escapes
   * `\'`, `\\`, `\n` and `\r`.
   */
  predicate CharBody(p: string)
  {
    (|p| == 1 && p[0] != '\'' && p[0] != '\\' && p[0] != '\n' && p[0] != '\r') ||
    p == "\\'" || p == "\\\\" || p == "\\n" || p == "\\r"
  }

  /** Python's escaping of a raw character inside a quoted literal. */
  function PyEscChar(c: char): string
  {
    if c == '\t' then "\\t"
    else if c == '\n' then "\\n"
    else if c == '\r' then "\\r"
    else if c == '\'' then "\\'"
    else if c == '\\' then "\\\\"
    else [c]
  }

  /**
   * The piece `cheap_chars` makes of a raw character: quote and backslash
   * escaped; a line break raw as written, escaped when `fixed`.
   */
  function CPiece(c: char, fixed: bool): (p: string)
    ensures fixed ==> CharBody(p)
    ensures !fixed && (c == '\n' || c == '\r') ==> !CharBody(p)
  {
    if c == '\'' then "\\'"
    else if c == '\\' then "\\\\"
    else if fixed && c == '\n' then "\\n"
    else if fixed && c == '\r' then "\\r"
    else [c]
  }

  /**
   * Round trip: on a Python-escaped string, `cheap_chars` yields one piece
   * per raw character; the quote piece is never used, since the escaping
   * leaves no bare quote.
   */
  lemma {:induction false} CheapCharsRoundTrip(raw: string, fixed: bool)
    ensures CheapChars(MapChars(raw, PyEscChar), fixed) == Ok(seq(|raw|, i requires 0 <= i < |raw| => CPiece(raw[i], fixed)))
    decreases |raw|
  {
    if raw != [] {
      var rest := MapChars(raw[1..], PyEscChar);
      CheapCharsRoundTrip(raw[1..], fixed);
      CheapCharsStep(raw[0], rest, fixed);
      assert MapChars(raw, PyEscChar) == PyEscChar(raw[0]) + rest;
      assert seq(|raw|, i requires 0 <= i < |raw| => CPiece(raw[i], fixed)) ==
        [CPiece(raw[0], fixed)] + seq(|raw[1..]|, i requires 0 <= i < |raw[1..]| => CPiece(raw[1..][i], fixed));
    } else {
      assert MapChars(raw, PyEscChar) == [];
      assert seq(|raw|, i requires 0 <= i < |raw| => CPiece(raw[i], fixed)) == [];
    }
  }

  /** One escaped raw character decodes to its piece. */
  lemma CheapCharsStep(c: char, rest: string, fixed: bool)
    ensures CheapChars(PyEscChar(c) + rest, fixed) == Cons(CPiece(c, fixed), CheapChars(rest, fixed))
  {
    var e := PyEscChar(c);
    assert (e + rest)[0] == e[0];
    if |e| == 2 {
      assert (e + rest)[1] == e[1] && (e + rest)[2..] == rest;
    } else {
      assert (e + rest)[1..] == rest;
    }
  }

  /** With the quote and the line breaks escaped, every piece `cheap_chars` yields fits between single quotes. */
  lemma {:induction false} CheapCharsFixedSafe(s: string)
    requires CheapChars(s, true).Ok?
    ensures forall i :: 0 <= i < |CheapChars(s, true).value| ==> CharBody(CheapChars(s, true).value[i])
    decreases |s|
  {
    if s != [] {
      if s[0] == '\\' {
        CheapCharsFixedSafe(s[2..]);
      } else {
        CheapCharsFixedSafe(s[1..]);
      }
    }
  }

  /** As written, a bare quote passes through unescaped and breaks the C literal it is embedded in. */
  lemma BareQuoteUnescaped()
    ensures CheapChars("'", false) == Ok(["'"]) && !CharBody("'")
    ensures CheapChars("'", true) == Ok(["\\'"])
  {
    assert "'"[0] == '\'' && "'"[1..] == [];
    assert CheapChars("'"[1..], false) == Ok([]) && CheapChars("'"[1..], true) == Ok([]);
    assert ["'"] + [] == ["'"] && [EscapedQuote] + [] == [EscapedQuote];
  }

  /**
   * As written, the escapes `\n` and `\r` become raw line breaks, which
   * end the C character constant they are embedded in; the corrected table
   * keeps them escaped.
   */
  lemma LineBreakUnescaped()
    ensures CheapChars("\\n", false) == Ok(["\n"]) && !CharBody("\n")
    ensures CheapChars("\\r", false) == Ok(["\r"]) && !CharBody("\r")
    ensures CheapChars("\\n", true) == Ok(["\\n"]) && CheapChars("\\r", true) == Ok(["\\r"])
  {
    var n, r := "\\n", "\\r";
    assert n[0] == '\\' && n[1] == 'n' && n[2..] == [] && r[0] == '\\' && r[1] == 'r' && r[2..] == [];
    assert CheapChars(n[2..], false) == Ok([]) && CheapChars(n[2..], true) == Ok([]);
    assert ["\n"] + [] == ["\n"] && ["\r"] + [] == ["\r"] && ["\\n"] + [] == ["\\n"] && ["\\r"] + [] == ["\\r"];
  }

  /** The two failures: a trailing backslash, and an escape the table does not know. */
  lemma CheapCharsErrors()
    ensures CheapChars("a\\", false) == Err(Truncated)
    ensures CheapChars("\\x", false) == Err(UnknownEscape('x'))
  {
    assert "a\\"[1..] == "\\";
  }
}
