/** The template language of rule values (src/dtweaks.c:118-145 and 380).
    The C code runs `g_regex_replace_eval` with the fixed pattern
    `\$\{(.*?)\}|\$(\w+|\*)|(\$\$|.)` over the template and lets
    `replacer_callback` produce the text for every match. Here the pattern
    is a hand-written scanner with the same ordered alternatives, and the
    callback is `Substitution`. */
module Template {
  import opened Base
  import opened Regex
  import opened Utf8

  /** One match of the tokenising pattern, or a character it skips. */
  datatype Token =
    | Braced(name: String)  // `${name}`: first alternative, group 1
    | Bare(name: String)    // `$word` or `$*`: second alternative, group 2
    | Escape                // `$$`: third alternative, group 3
    | Char(c: char)         // one character matched by `.`: third alternative, group 3
    | LineBreak(c: char)    // a character no alternative matches, copied unchanged

  /** The template text a token was scanned from. */
  function Spell(tok: Token): String {
    match tok
    case Braced(n) => "${" + n + "}"
    case Bare(n) => "$" + n
    case Escape => "$$"
    case Char(c) => [c]
    case LineBreak(c) => [c]
  }

  function SpellAll(toks: seq<Token>): String {
    if |toks| == 0 then [] else Spell(toks[0]) + SpellAll(toks[1..])
  }

  /** `\}` can end the lazy `(.*?)` at index `j` when `t[j]` is a closing
      brace and no line break lies between `k` and `j` (`.` refuses line
      breaks but accepts anything else, braces included). */
  predicate ClosesAt(t: String, k: nat, j: nat) {
    k <= j < |t| && t[j] == '}' && forall i :: k <= i < j ==> !IsLineBreak(t[i])
  }

  /** Where the lazy `\{(.*?)\}` that starts before index `k` ends: the
      least closing position, if there is one. */
  function BraceClose(t: String, k: nat): (r: Option<nat>)
    requires k <= |t|
    ensures r.Some? ==> ClosesAt(t, k, r.value) && forall j :: k <= j < r.value ==> !ClosesAt(t, k, j)
    ensures r.None? ==> forall j :: !ClosesAt(t, k, j)
    decreases |t| - k
  {
    if k == |t| || IsLineBreak(t[k]) then None
    else if t[k] == '}' then Some(k)
    else
      var r := BraceClose(t, k + 1);
      assert !ClosesAt(t, k, k);
      assert forall j :: ClosesAt(t, k, j) ==> j == k || ClosesAt(t, k + 1, j);
      r
  }

  /** Length of the run of word characters starting at index `k`; the
      greedy `\w+` takes all of it. */
  function WordRun(t: String, k: nat): (n: nat)
    requires k <= |t|
    ensures k + n <= |t|
    ensures forall i :: k <= i < k + n ==> IsWordChar(t[i])
    ensures k + n == |t| || !IsWordChar(t[k + n])
    decreases |t| - k
  {
    if k < |t| && IsWordChar(t[k]) then 1 + WordRun(t, k + 1) else 0
  }

  /** The first token of a non-empty template and how many characters it
      consumes, trying the pattern's alternatives in order. */
  function NextToken(t: String): (r: (Token, nat))
    requires |t| > 0
    ensures 1 <= r.1 <= |t|
    ensures Spell(r.0) == t[..r.1]
  {
    if t[0] == '$' && |t| >= 2 && t[1] == '{' && BraceClose(t, 2).Some? then
      var j := BraceClose(t, 2).value;
      assert t[..j + 1] == "${" + t[2..j] + "}";
      (Braced(t[2..j]), j + 1)
    else if t[0] == '$' && |t| >= 2 && IsWordChar(t[1]) then
      var n := WordRun(t, 1);
      assert t[..1 + n] == "$" + t[1..1 + n];
      (Bare(t[1..1 + n]), 1 + n)
    else if t[0] == '$' && |t| >= 2 && t[1] == '*' then
      assert t[..2] == "$*";
      (Bare("*"), 2)
    else if t[0] == '$' && |t| >= 2 && t[1] == '$' then
      assert t[..2] == "$$";
      (Escape, 2)
    else if IsLineBreak(t[0]) then
      (LineBreak(t[0]), 1)
    else
      (Char(t[0]), 1)
  }

  /** The successive matches of the tokenising pattern over a template. */
  function Scan(t: String): seq<Token>
    decreases |t|
  {
    if |t| == 0 then [] else [NextToken(t).0] + Scan(t[NextToken(t).1..])
  }

  /** `replacer_callback`'s resolution of a variable name against the key's
      raw value and the extractor's match, if an extractor is configured. */
  function ResolveVar(name: String, value: String, m: Option<MatchInfo>): (r: String)
    ensures name == "*" ==> r == value
    ensures name != "*" && m.None? ==> r == []
    ensures name != "*" && m.Some? && name in m.value.named ==>
              r == GroupText(m.value.named[name])
    ensures name != "*" && m.Some? && name !in m.value.named && |name| > 0 && IsDigit(name[0])
            && Atoi(name) < |m.value.positional| ==>
              r == GroupText(m.value.positional[Atoi(name)])
    ensures name != "*" && m.Some? && name !in m.value.named
            && !(|name| > 0 && IsDigit(name[0]) && Atoi(name) < |m.value.positional|) ==>
              r == []
  {
    if name == "*" then value
    else match m
      case None => []
      case Some(info) =>
        var named := FetchNamed(info, name);
        var subst := if named.None? && |name| > 0 && IsDigit(name[0]) then Fetch(info, Atoi(name)) else named;
        subst.GetOr([])
  }

  /** The text the callback appends for one token. A braced variable with
      an empty name leaves the callback with no variable and an empty
      third group, whose first byte is the terminating NUL. */
  function Substitution(tok: Token, value: String, m: Option<MatchInfo>): String {
    match tok
    case Braced(n) => if |n| > 0 then ResolveVar(n, value, m) else "\0"
    case Bare(n) => ResolveVar(n, value, m)
    case Escape => "$"
    case Char(c) => [c]
    case LineBreak(c) => [c]
  }

  function RenderTokens(toks: seq<Token>, value: String, m: Option<MatchInfo>): String {
    if |toks| == 0 then [] else Substitution(toks[0], value, m) + RenderTokens(toks[1..], value, m)
  }

  /** The new value of a key: `template` rendered against the key's raw
      `value` and the extractor match `m` (`None` when there is no extractor). */
  function Render(template: String, value: String, m: Option<MatchInfo>): String {
    RenderTokens(Scan(template), value, m)
  }

  /** Rendering a non-empty template appends the first token's text to the
      rendering of the rest. */
  lemma RenderStep(t: String, value: String, m: Option<MatchInfo>)
    requires |t| > 0
    ensures Render(t, value, m) ==
              Substitution(NextToken(t).0, value, m) + Render(t[NextToken(t).1..], value, m)
  {
    assert ([NextToken(t).0] + Scan(t[NextToken(t).1..]))[1..] == Scan(t[NextToken(t).1..]);
  }

  /** Scanning loses nothing: the tokens spell out the template again. */
  lemma {:induction false} ScanSpellsTemplate(t: String)
    ensures SpellAll(Scan(t)) == t
    decreases |t|
  {
    if |t| > 0 {
      var (tok, n) := NextToken(t);
      var toks := Scan(t);
      assert toks == [tok] + Scan(t[n..]);
      assert toks[0] == tok && toks[1..] == Scan(t[n..]);
      assert SpellAll(toks) == t[..n] + SpellAll(Scan(t[n..]));
      ScanSpellsTemplate(t[n..]);
      assert t[..n] + t[n..] == t;
    }
  }

  /** Every token the scanner produces is one the pattern can match: a
      braced name holds no line break and no closing brace, a bare name is
      `*` or a run of word characters. */
  predicate WellFormedToken(tok: Token) {
    match tok
    case Braced(n) => forall i :: 0 <= i < |n| ==> !IsLineBreak(n[i]) && n[i] != '}'
    case Bare(n) => n == "*" || (|n| > 0 && forall i :: 0 <= i < |n| ==> IsWordChar(n[i]))
    case Escape => true
    case Char(c) => !IsLineBreak(c)
    case LineBreak(c) => IsLineBreak(c)
  }

  lemma {:induction false} ScanWellFormed(t: String)
    ensures forall i :: 0 <= i < |Scan(t)| ==> WellFormedToken(Scan(t)[i])
    decreases |t|
  {
    if |t| > 0 {
      var (tok, n) := NextToken(t);
      ScanWellFormed(t[n..]);
      if tok.Braced? {
        var j := BraceClose(t, 2).value;
        assert forall i :: 2 <= i < j ==> !ClosesAt(t, 2, i);
        forall i | 0 <= i < |tok.name|
          ensures !IsLineBreak(tok.name[i]) && tok.name[i] != '}'
        {
          assert tok.name[i] == t[i + 2];
          assert !ClosesAt(t, 2, i + 2);
        }
      }
      assert WellFormedToken(tok);
      assert Scan(t) == [tok] + Scan(t[n..]);
    }
  }

  /** Text without `$` renders to itself, whatever the value and match. */
  lemma {:induction false} RenderWithoutDollar(t: String, value: String, m: Option<MatchInfo>)
    requires forall i :: 0 <= i < |t| ==> t[i] != '$'
    ensures Render(t, value, m) == t
    decreases |t|
  {
    if |t| > 0 {
      RenderStep(t, value, m);
      assert NextToken(t).1 == 1;
      RenderWithoutDollar(t[1..], value, m);
      assert [t[0]] + t[1..] == t;
    }
  }

  /** Text without `$` in front of the rest of a template is copied
      through, and the rest renders as it would on its own. */
  lemma {:induction false} RenderLiteralPrefix(a: String, b: String, value: String, m: Option<MatchInfo>)
    requires forall i :: 0 <= i < |a| ==> a[i] != '$'
    ensures Render(a + b, value, m) == a + Render(b, value, m)
    decreases |a|
  {
    if |a| > 0 {
      var t := a + b;
      RenderStep(t, value, m);
      assert NextToken(t).1 == 1 && NextToken(t).0 == (if IsLineBreak(a[0]) then LineBreak(a[0]) else Char(a[0]));
      assert t[1..] == a[1..] + b;
      RenderLiteralPrefix(a[1..], b, value, m);
      assert [a[0]] + a[1..] == a;
    } else {
      assert a + b == b;
    }
  }

  /** `$$` always renders as one `$`, so `$$name` renders as `$name`. */
  lemma RenderEscapedDollar(rest: String, value: String, m: Option<MatchInfo>)
    ensures Render("$$" + rest, value, m) == "$" + Render(rest, value, m)
  {
    var t := "$$" + rest;
    RenderStep(t, value, m);
    assert NextToken(t) == (Escape, 2);
    assert t[2..] == rest;
  }

  /** `$*` renders the key's raw value, extractor or not. */
  lemma RenderBareWildcard(rest: String, value: String, m: Option<MatchInfo>)
    ensures Render("$*" + rest, value, m) == value + Render(rest, value, m)
  {
    var t := "$*" + rest;
    RenderStep(t, value, m);
    assert NextToken(t) == (Bare("*"), 2);
    assert t[2..] == rest;
  }

  /** `${*}` renders the key's raw value too. */
  lemma RenderBracedWildcard(rest: String, value: String, m: Option<MatchInfo>)
    ensures Render("${*}" + rest, value, m) == value + Render(rest, value, m)
  {
    var t := "${*}" + rest;
    assert BraceClose(t, 3) == Some(3);
    assert BraceClose(t, 2) == Some(3);
    RenderStep(t, value, m);
    assert NextToken(t) == (Braced("*"), 4);
    assert t[4..] == rest;
  }

  /** `${name}` resolves `name`, the text up to the first closing brace. */
  lemma RenderBracedVariable(name: String, rest: String, value: String, m: Option<MatchInfo>)
    requires |name| > 0
    requires forall i :: 0 <= i < |name| ==> name[i] != '}' && !IsLineBreak(name[i])
    ensures Render("${" + name + "}" + rest, value, m) == ResolveVar(name, value, m) + Render(rest, value, m)
  {
    var t := "${" + name + "}" + rest;
    var j := |name| + 2;
    assert ClosesAt(t, 2, j);
    forall i | 2 <= i < j
      ensures !ClosesAt(t, 2, i)
    {
      assert t[i] == name[i - 2];
    }
    assert BraceClose(t, 2) == Some(j);
    assert t[2..j] == name;
    RenderStep(t, value, m);
    assert t[j + 1..] == rest;
  }

  /** `$word` resolves the longest run of word characters after `$`. */
  lemma RenderBareVariable(name: String, rest: String, value: String, m: Option<MatchInfo>)
    requires |name| > 0 && forall i :: 0 <= i < |name| ==> IsWordChar(name[i])
    requires |rest| == 0 || !IsWordChar(rest[0])
    ensures Render("$" + name + rest, value, m) == ResolveVar(name, value, m) + Render(rest, value, m)
  {
    var t := "$" + name + rest;
    assert t[1] == name[0];
    assert WordRun(t, 1) == |name| by {
      WordRunCovers(t, 1, |name|);
    }
    assert t[1..1 + |name|] == name;
    RenderStep(t, value, m);
    assert t[1 + |name|..] == rest;
  }

  lemma {:induction false} WordRunCovers(t: String, k: nat, n: nat)
    requires k + n <= |t|
    requires forall i :: k <= i < k + n ==> IsWordChar(t[i])
    requires k + n == |t| || !IsWordChar(t[k + n])
    ensures WordRun(t, k) == n
    decreases n
  {
    if n > 0 {
      WordRunCovers(t, k + 1, n - 1);
    }
  }

  /** A `$` that starts none of the recognised forms is copied verbatim;
      in particular `${abc` with no closing brace renders `$` and then
      renders `{abc` as ordinary text. */
  lemma RenderLoneDollar(rest: String, value: String, m: Option<MatchInfo>)
    requires |rest| == 0 || (!IsWordChar(rest[0]) && rest[0] != '*' && rest[0] != '$')
    requires |rest| > 0 && rest[0] == '{' ==> BraceClose("$" + rest, 2).None?
    ensures Render("$" + rest, value, m) == "$" + Render(rest, value, m)
  {
    var t := "$" + rest;
    RenderStep(t, value, m);
    assert NextToken(t) == (Char('$'), 1);
    assert t[1..] == rest;
  }

  /** A brace that is never closed (no `}` before the end) leaves the
      whole text literal. */
  lemma UnclosedBraceIsLiteral(body: String, value: String, m: Option<MatchInfo>)
    requires forall i :: 0 <= i < |body| ==> body[i] != '}' && body[i] != '$'
    ensures Render("${" + body, value, m) == "${" + body
  {
    var t := "${" + body;
    assert BraceClose(t, 2).None? by {
      forall j: nat ensures !ClosesAt(t, 2, j) {
        if 2 <= j < |t| {
          assert t[j] == body[j - 2];
        }
      }
    }
    assert "${" + body == "$" + ("{" + body);
    RenderLoneDollar("{" + body, value, m);
    RenderWithoutDollar("{" + body, value, m);
  }

  // ---------------------------------------------------------------------
  // The renderer as written, byte by byte.

  /** The bytes the callback appends for one token as the C code is
      written: for a character matched by `.` it appends `ignore[0]`, the
      first byte of the character's UTF-8 encoding. */
  function SubstitutionBytes(tok: Token, value: String, m: Option<MatchInfo>): seq<Byte> {
    match tok
    case Char(c) => [LeadByte(c)]
    case _ => Encode(Substitution(tok, value, m))
  }

  function RenderTokensBytes(toks: seq<Token>, value: String, m: Option<MatchInfo>): seq<Byte> {
    if |toks| == 0 then [] else SubstitutionBytes(toks[0], value, m) + RenderTokensBytes(toks[1..], value, m)
  }

  /** The renderer as written, producing the bytes stored in the key file. */
  function RenderAsWritten(template: String, value: String, m: Option<MatchInfo>): seq<Byte> {
    RenderTokensBytes(Scan(template), value, m)
  }

  predicate IsAscii(t: String) {
    forall i :: 0 <= i < |t| ==> (t[i] as int) < 0x80
  }

  /** On an ASCII template the renderer as written produces exactly the
      UTF-8 encoding of `Render`. */
  lemma {:induction false} AsWrittenAgreesOnAscii(t: String, value: String, m: Option<MatchInfo>)
    requires IsAscii(t)
    ensures RenderAsWritten(t, value, m) == Encode(Render(t, value, m))
    decreases |t|
  {
    if |t| > 0 {
      var (tok, n) := NextToken(t);
      var rest := t[n..];
      assert Scan(t) == [tok] + Scan(rest);
      assert ([tok] + Scan(rest))[1..] == Scan(rest);
      assert IsAscii(rest) by {
        forall i | 0 <= i < |rest| ensures (rest[i] as int) < 0x80 {
          assert rest[i] == t[i + n];
        }
      }
      AsWrittenAgreesOnAscii(rest, value, m);
      RenderStep(t, value, m);
      EncodeAppend(Substitution(tok, value, m), Render(rest, value, m));
      if tok.Char? {
        assert Encode([tok.c]) == EncodeChar(tok.c) + Encode([]);
      }
    }
  }

  /** A non-ASCII literal character loses its continuation bytes:
      "é" (bytes C3 A9) is rendered as the single byte C3. */
  lemma AsWrittenTruncatesMultiByteChar(value: String, m: Option<MatchInfo>)
    ensures RenderAsWritten("é", value, m) == [0xC3]
    ensures Encode("é") == [0xC3, 0xA9]
    ensures RenderAsWritten("é", value, m) != Encode(Render("é", value, m))
  {
    var t := "é";
    assert NextToken(t) == (Char('é'), 1);
    assert Scan(t) == [Char('é')] + Scan([]);
    assert EncodeChar('é') == [0xC3, 0xA9];
    assert RenderAsWritten(t, value, m) == [LeadByte('é')] + RenderTokensBytes([], value, m);
    assert Encode(t) == EncodeChar('é') + Encode([]);
    RenderWithoutDollar(t, value, m);
  }
}
