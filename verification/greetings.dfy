/** The template `Hello, $1!` of the worked rule files, rendered with and
    without an extractor match. */
module Greetings {
  import opened Base
  import opened Regex
  import opened Template

  /** A non-empty run of word characters: what `^(\w+)$` matches. */
  predicate IsWord(s: String) {
    |s| > 0 && forall i :: 0 <= i < |s| ==> IsWordChar(s[i])
  }

  /** An extractor library that compiles everything and matches every
      pattern like `^(\w+)$`: a value that is one word is captured whole as
      group 1, any other value does not match. */
  function WordOracle(): Oracle {
    Oracle(p => true,
           (p, s) => if IsWord(s) then Some(MatchInfo([Captured(s), Captured(s)], map[])) else None)
  }

  /** Variable `1` is capture group 1 when no group is named `1`. */
  lemma GroupOneResolves(value: String, m: Option<MatchInfo>)
    requires m.Some? && "1" !in m.value.named && |m.value.positional| > 1
    ensures ResolveVar("1", value, m) == GroupText(m.value.positional[1])
  {
    assert LeadingDigits("1") == "1" by {
      assert LeadingDigits("1"[1..]) == [];
    }
    assert Atoi("1") == 1;
  }

  lemma GroupOneTail(value: String, m: Option<MatchInfo>)
    requires m.Some? && "1" !in m.value.named && |m.value.positional| > 1
    ensures Render("$1!", value, m) == GroupText(m.value.positional[1]) + "!"
  {
    GroupOneResolves(value, m);
    RenderWithoutDollar("!", value, m);
    RenderBareVariable("1", "!", value, m);
    assert "$" + "1" + "!" == "$1!";
  }

  /** Text without `$` in front of a template whose rendering is known. */
  lemma PrefixThen(t: String, a: String, b: String, value: String, m: Option<MatchInfo>, tail: String)
    requires t == a + b && forall i :: 0 <= i < |a| ==> a[i] != '$'
    requires Render(b, value, m) == tail
    ensures Render(t, value, m) == a + tail
  {
    RenderLiteralPrefix(a, b, value, m);
  }

  /** The greeting in front of `$1!` is copied unchanged. */
  lemma HelloPrefix(value: String, m: Option<MatchInfo>, tail: String)
    requires Render("$1!", value, m) == tail
    ensures Render("Hello, $1!", value, m) == "Hello, " + tail
  {
    PrefixThen("Hello, $1!", "Hello, ", "$1!", value, m, tail);
  }

  /** `Hello, $1!` greets capture group 1, whatever it holds. */
  lemma HelloGreetsGroupOne(value: String, m: Option<MatchInfo>)
    requires m.Some? && "1" !in m.value.named && |m.value.positional| > 1
    ensures Render("Hello, $1!", value, m) == "Hello, " + GroupText(m.value.positional[1]) + "!"
  {
    GroupOneTail(value, m);
    HelloPrefix(value, m, GroupText(m.value.positional[1]) + "!");
  }

  lemma UnmatchedTail(value: String)
    ensures Render("$1!", value, None) == "!"
  {
    RenderWithoutDollar("!", value, None);
    RenderBareVariable("1", "!", value, None);
    assert "$" + "1" + "!" == "$1!";
  }

  /** Without a match every numbered variable renders empty. */
  lemma HelloUnmatchedTemplate(value: String)
    ensures Render("Hello, $1!", value, None) == "Hello, !"
  {
    UnmatchedTail(value);
    HelloPrefix(value, None, "!");
    assert "Hello, " + "!" == "Hello, !";
  }

  /** With the word extractor, `Hello, $1!` greets a one-word value. */
  lemma HelloTemplate(value: String)
    requires IsWord(value)
    ensures Render("Hello, $1!", value, WordOracle().exec("^(\\w+)$", value)) == "Hello, " + value + "!"
  {
    HelloGreetsGroupOne(value, WordOracle().exec("^(\\w+)$", value));
  }
}
