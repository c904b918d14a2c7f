/** Worked cases of the rule engine on concrete rule files and targets. */
module Scenarios {
  import opened Base
  import opened Regex
  import opened Document
  import opened Glob
  import opened Template
  import opened Rules
  import opened Apply
  import opened Greetings

  /** A one-key target section under a group that matches it. */
  lemma OneKeyTarget(o: Oracle, groups: seq<GroupRule>, name: String, e: Entry)
    requires |groups| > 0 && groups[0].pattern == name
    ensures ApplyDocument(o, groups, [Section(name, [e])]) == [Section(name, [Rewritten(o, groups[0].rules, e)])]
  {
    var target := [Section(name, [e])];
    MatchesItself(name);
    assert FindGroup(groups, name) == Some(0);
    ApplyDocumentEffect(o, groups, target, 0);
    var r := ApplyDocument(o, groups, target);
    assert r[0].entries == [Rewritten(o, groups[0].rules, e)];
  }

  /** A rule section declaring `Name` and then its extractor. */
  function HelloRules(): seq<Section> {
    [Section("App", [Entry("Name", "Hello, $1!"), Entry("Name$", "^(\\w+)$")])]
  }

  /** Each key occurs once, so every line reads back its own value. */
  lemma HelloRulesRead()
    ensures Reads(HelloRules()[0].entries) == HelloRules()[0].entries
  {
    var es := HelloRules()[0].entries;
    assert es[0].key != es[1].key;
    ReadsOfDistinct(es);
  }

  /** The one extractor of the section is accepted. */
  lemma HelloRulesAccepted()
    ensures AllAccepted(WordOracle(), HelloRules()[0].entries)
  {
    var o := WordOracle();
    var es := HelloRules()[0].entries;
    assert IsRegexKey(es[1].key) && !IsRegexKey(es[0].key);
    assert BaseKey(es[1].key) == "Name";
    assert es[..1] == [es[0]];
    assert "Name" in PlainKeys(es[..1]);
    assert LastIndex(es[..1], "Name") == Some(0);
  }

  /** `Name` gets its template and its extractor. */
  lemma HelloRulesReference()
    ensures ReferenceRules(WordOracle(), HelloRules()[0].entries) ==
              map["Name" := KeyRule("Hello, $1!", Some("^(\\w+)$"))]
  {
    var o := WordOracle();
    var es := HelloRules()[0].entries;
    assert PlainKeys(es) == {"Name"} by {
      assert IsRegexKey(es[1].key);
      assert !IsRegexKey(es[0].key);
    }
    assert LastIndex(es, "Name") == Some(0);
    assert es[1].key == "Name" + "$";
    assert FirstCompiling(o, es, 1, "Name") == Some("^(\\w+)$");
  }

  lemma HelloRulesLoad()
    ensures Load(WordOracle(), HelloRules()).groups ==
              [GroupRule("App", map["Name" := KeyRule("Hello, $1!", Some("^(\\w+)$"))])]
    ensures |Load(WordOracle(), HelloRules()).errors| == 0
  {
    LoadIsPerSection(WordOracle(), HelloRules());
    HelloRulesRead();
    HelloRulesAccepted();
    HelloRulesReference();
  }

  /** With the plain key first, the extractor's capture reaches the
      template: `Name = World` becomes `Name = Hello, World!`, and so for
      every one-word value, and the file succeeds. */
  lemma HelloWorld(v: String)
    requires IsWord(v)
    ensures ProcessFile(WordOracle(), RuleFile(HelloRules()), Some([Section("App", [Entry("Name", v)])]), Preview)
            == Outcome(Printed([Section("App", [Entry("Name", "Hello, " + v + "!")])]), true)
  {
    var o := WordOracle();
    var e := Entry("Name", v);
    var target := [Section("App", [e])];
    HelloRulesLoad();
    ProcessFileOutcome(o, RuleFile(HelloRules()), Some(target), Preview);
    var groups := Load(o, HelloRules()).groups;
    OneKeyTarget(o, groups, "App", e);
    HelloTemplate(v);
    assert groups[0].rules["Name"] == KeyRule("Hello, $1!", Some("^(\\w+)$"));
  }

  /** The same rule against a value the extractor does not match, such as
      `two words`, leaves the key as it was, and that is not a failure. */
  lemma HelloNoMatch(v: String)
    requires !IsWord(v)
    ensures ProcessFile(WordOracle(), RuleFile(HelloRules()), Some([Section("App", [Entry("Name", v)])]), Preview)
            == Outcome(Printed([Section("App", [Entry("Name", v)])]), true)
  {
    var o := WordOracle();
    var e := Entry("Name", v);
    var target := [Section("App", [e])];
    HelloRulesLoad();
    ProcessFileOutcome(o, RuleFile(HelloRules()), Some(target), Preview);
    var groups := Load(o, HelloRules()).groups;
    OneKeyTarget(o, groups, "App", e);
    assert groups[0].rules["Name"].extractor == Some("^(\\w+)$");
  }

  /** The extractor declared before its key: the regex entry is rejected,
      the load fails, and `$1` renders empty since `Name` has no extractor. */
  function ExtractorFirstRules(): seq<Section> {
    [Section("App", [Entry("Name$", "^(\\w+)$"), Entry("Name", "Hello, $1!")])]
  }

  lemma ExtractorFirstRulesRead()
    ensures Reads(ExtractorFirstRules()[0].entries) == ExtractorFirstRules()[0].entries
  {
    var es := ExtractorFirstRules()[0].entries;
    assert es[0].key != es[1].key;
    ReadsOfDistinct(es);
  }

  lemma ExtractorFirstRulesLoad()
    ensures Load(WordOracle(), ExtractorFirstRules()).groups ==
              [GroupRule("App", map["Name" := KeyRule("Hello, $1!", None)])]
    ensures |Load(WordOracle(), ExtractorFirstRules()).errors| > 0
  {
    var o := WordOracle();
    var es := ExtractorFirstRules()[0].entries;
    LoadIsPerSection(o, ExtractorFirstRules());
    ExtractorFirstRulesRead();
    assert PlainKeys(es) == {"Name"} by {
      assert IsRegexKey(es[0].key);
      assert !IsRegexKey(es[1].key);
    }
    assert LastIndex(es, "Name") == Some(1);
    assert FirstCompiling(o, es, 2, "Name") == None;
    assert ReferenceRules(o, es) == map["Name" := KeyRule("Hello, $1!", None)];
    assert !AllAccepted(o, es) by {
      assert BaseKey(es[0].key) == "Name";
      assert PlainKeys(es[..0]) == {};
    }
  }

  lemma ExtractorFirst(v: String)
    ensures ProcessFile(WordOracle(), RuleFile(ExtractorFirstRules()), Some([Section("App", [Entry("Name", v)])]), Preview)
            == Outcome(Printed([Section("App", [Entry("Name", "Hello, !")])]), false)
  {
    var o := WordOracle();
    var e := Entry("Name", v);
    var target := [Section("App", [e])];
    ExtractorFirstRulesLoad();
    ProcessFileOutcome(o, RuleFile(ExtractorFirstRules()), Some(target), Preview);
    var groups := Load(o, ExtractorFirstRules()).groups;
    OneKeyTarget(o, groups, "App", e);
    HelloUnmatchedTemplate(v);
  }

  /** An extractor library that rejects the pattern `(` and matches every
      value with every other pattern. */
  function ParenOracle(): Oracle {
    Oracle(p => p != "(",
           (p, s) => Some(MatchInfo([Captured(s), Captured(s)], map[])))
  }

  /** A rule section whose first extractor does not compile and whose
      second one does. */
  function StaleRules(): seq<Section> {
    [Section("App", [Entry("Name", "N"), Entry("Name$", "("), Entry("Icon", "I"), Entry("Icon$", "^(.*)$")])]
  }

  lemma StaleRulesRead()
    ensures Reads(StaleRules()[0].entries) == StaleRules()[0].entries
  {
    var es := StaleRules()[0].entries;
    assert DistinctKeys(es) by {
      assert es[0].key == "Name" && es[1].key == "Name$" && es[2].key == "Icon" && es[3].key == "Icon$";
    }
    ReadsOfDistinct(es);
  }

  /** Both loaders reject `(` in the first two lines; only the loader as
      written leaves the error set. */
  lemma StalePrefix(sticky: bool)
    ensures LoadEntries(ParenOracle(), sticky, "App", LoadState(map[], [], false), StaleRules()[0].entries[..2]) ==
              LoadState(map["Name" := KeyRule("N", None)], [RegexCompileFailed("App", "Name")], sticky)
  {
    var o := ParenOracle();
    var es := StaleRules()[0].entries[..2];
    var s0 := LoadState(map[], [], false);
    assert BaseKey("Name$") == "Name" && !IsRegexKey("Name");
    assert es[..1][..0] == [];
    assert es[..1][0] == Entry("Name", "N");
    assert LoadEntries(o, sticky, "App", s0, es[..1][..0]) == s0;
    var s1 := LoadEntries(o, sticky, "App", s0, es[..1]);
    assert s1 == LoadEntry(o, sticky, "App", s0, Entry("Name", "N"));
    assert s1 == LoadState(map["Name" := KeyRule("N", None)], [], false);
    assert es[..|es| - 1] == es[..1];
  }

  /** The section as written: `Icon$` meets the error left by `Name$`. */
  lemma StaleEntriesAsWritten()
    ensures LoadEntries(ParenOracle(), true, "App", LoadState(map[], [], false), StaleRules()[0].entries) ==
              LoadState(map["Name" := KeyRule("N", None), "Icon" := KeyRule("I", None)],
                        [RegexCompileFailed("App", "Name"), RegexCompileFailed("App", "Icon")], true)
  {
    var o := ParenOracle();
    var es := StaleRules()[0].entries;
    var s0 := LoadState(map[], [], false);
    StalePrefix(true);
    var s2 := LoadEntries(o, true, "App", s0, es[..2]);
    assert BaseKey("Icon$") == "Icon" && !IsRegexKey("Icon");
    assert es[..3][..2] == es[..2];
    var s3 := LoadEntries(o, true, "App", s0, es[..3]);
    assert s3 == LoadState(s2.rules["Icon" := KeyRule("I", None)], s2.errors, true);
    assert es[..3] == es[..|es| - 1];
  }

  /** The section with independent compilations: `Icon$` compiles. */
  lemma StaleEntriesCorrected()
    ensures LoadEntries(ParenOracle(), false, "App", LoadState(map[], [], false), StaleRules()[0].entries) ==
              LoadState(map["Name" := KeyRule("N", None), "Icon" := KeyRule("I", Some("^(.*)$"))],
                        [RegexCompileFailed("App", "Name")], false)
  {
    var o := ParenOracle();
    var es := StaleRules()[0].entries;
    var s0 := LoadState(map[], [], false);
    StalePrefix(false);
    var s2 := LoadEntries(o, false, "App", s0, es[..2]);
    assert BaseKey("Icon$") == "Icon" && !IsRegexKey("Icon");
    assert es[..3][..2] == es[..2];
    var s3 := LoadEntries(o, false, "App", s0, es[..3]);
    assert s3 == LoadState(s2.rules["Icon" := KeyRule("I", None)], s2.errors, false);
    assert es[..3] == es[..|es| - 1];
  }

  /** As written, the first failed compilation also fails the second,
      valid regex: `Icon` is left without its extractor and the error state
      outlives the section. */
  lemma StaleRulesAsWritten()
    ensures LoadAsWritten(ParenOracle(), StaleRules()) ==
              Loaded([GroupRule("App", map["Name" := KeyRule("N", None), "Icon" := KeyRule("I", None)])],
                     [RegexCompileFailed("App", "Name"), RegexCompileFailed("App", "Icon")], true)
  {
    StaleRulesRead();
    StaleEntriesAsWritten();
    assert StaleRules()[1..] == [];
  }

  /** Compiled independently, only the broken regex is rejected and `Icon`
      gets its extractor. */
  lemma StaleRulesCorrected()
    ensures Load(ParenOracle(), StaleRules()) ==
              Loaded([GroupRule("App", map["Name" := KeyRule("N", None), "Icon" := KeyRule("I", Some("^(.*)$"))])],
                     [RegexCompileFailed("App", "Name")], false)
  {
    StaleRulesRead();
    StaleEntriesCorrected();
    assert StaleRules()[1..] == [];
  }

  /** As written, the stale error also makes the save refuse to run: the
      target is never written. With independent compilations the rewritten
      target is saved, and the file still reports the broken regex. */
  lemma StaleErrorBlocksSave()
    ensures ProcessFileAsWritten(ParenOracle(), RuleFile(StaleRules()), Some([Section("App", [Entry("Icon", "x")])]), Persist(true))
            == Outcome(Untouched, false)
    ensures ProcessFile(ParenOracle(), RuleFile(StaleRules()), Some([Section("App", [Entry("Icon", "x")])]), Persist(true))
            == Outcome(Saved([Section("App", [Entry("Icon", "I")])]), false)
  {
    var o := ParenOracle();
    var e := Entry("Icon", "x");
    StaleRulesAsWritten();
    StaleRulesCorrected();
    var groups := Load(o, StaleRules()).groups;
    OneKeyTarget(o, groups, "App", e);
    var info := o.exec("^(.*)$", "x");
    RenderWithoutDollar("I", "x", info);
    assert Rewritten(o, groups[0].rules, e) == Entry("Icon", "I");
  }

  /** A rule section with two `Name$` lines, the first of them broken. */
  function RepeatedRegexRules(): seq<Section> {
    [Section("App", [Entry("Name", "N"), Entry("Name$", "("), Entry("Name$", "^(.*)$")])]
  }

  /** GKeyFile lists `Name$` twice but returns its last value both times,
      so the broken pattern is never seen. */
  lemma RepeatedRegexRead()
    ensures Reads(RepeatedRegexRules()[0].entries) ==
              [Entry("Name", "N"), Entry("Name$", "^(.*)$"), Entry("Name$", "^(.*)$")]
  {
    var es := RepeatedRegexRules()[0].entries;
    var r := Reads(es);
    LastIndexAt(es, "Name", 0);
    LastIndexAt(es, "Name$", 2);
    assert r[0] == Entry("Name", "N");
    assert r[1] == Entry("Name$", "^(.*)$");
    assert r[2] == Entry("Name$", "^(.*)$");
  }

  /** Whether or not a failed compilation is sticky, the first `Name$` line
      attaches `^(.*)$` and the second is reported as a second extractor;
      nothing fails to compile. */
  lemma RepeatedRegexLoad(sticky: bool)
    ensures LoadGroups(ParenOracle(), sticky, RepeatedRegexRules(), false) ==
              Loaded([GroupRule("App", map["Name" := KeyRule("N", Some("^(.*)$"))])],
                     [DuplicateRegex("App", "Name")], false)
  {
    var o := ParenOracle();
    var es := Reads(RepeatedRegexRules()[0].entries);
    RepeatedRegexRead();
    var s0 := LoadState(map[], [], false);
    assert BaseKey("Name$") == "Name" && !IsRegexKey("Name");
    assert es[..1][..0] == [];
    var s1 := LoadEntries(o, sticky, "App", s0, es[..1]);
    assert es[..1][0] == Entry("Name", "N");
    assert LoadEntries(o, sticky, "App", s0, es[..1][..0]) == s0;
    assert s1 == LoadEntry(o, sticky, "App", s0, Entry("Name", "N"));
    assert s1 == LoadState(map["Name" := KeyRule("N", None)], [], false);
    var s2 := LoadEntries(o, sticky, "App", s0, es[..2]);
    assert es[..2][..1] == es[..1];
    assert s2 == LoadState(map["Name" := KeyRule("N", Some("^(.*)$"))], [], false);
    var s3 := LoadEntries(o, sticky, "App", s0, es);
    assert es[..2] == es[..|es| - 1];
    assert s3 == LoadState(s2.rules, [DuplicateRegex("App", "Name")], false);
    assert RepeatedRegexRules()[1..] == [];
  }

  /** The rewritten target is saved by both loaders, and the duplicate
      extractor line fails the file. */
  lemma RepeatedRegexSaved(v: String)
    ensures ProcessFile(ParenOracle(), RuleFile(RepeatedRegexRules()), Some([Section("App", [Entry("Name", v)])]), Persist(true))
            == Outcome(Saved([Section("App", [Entry("Name", "N")])]), false)
    ensures ProcessFileAsWritten(ParenOracle(), RuleFile(RepeatedRegexRules()), Some([Section("App", [Entry("Name", v)])]), Persist(true))
            == Outcome(Saved([Section("App", [Entry("Name", "N")])]), false)
  {
    var o := ParenOracle();
    var e := Entry("Name", v);
    RepeatedRegexLoad(false);
    RepeatedRegexLoad(true);
    var groups := Load(o, RepeatedRegexRules()).groups;
    OneKeyTarget(o, groups, "App", e);
    var info := o.exec("^(.*)$", v);
    RenderWithoutDollar("N", v, info);
    assert Rewritten(o, groups[0].rules, e) == Entry("Name", "N");
  }

  /** `[App*]` declared before `[App]` wins for a section named `App`. */
  lemma FirstDeclaredGroupWins(o: Oracle)
    ensures FindGroup(Load(o, [Section("App*", []), Section("App", [])]).groups, "App") == Some(0)
  {
    LoadIsPerSection(o, [Section("App*", []), Section("App", [])]);
    StarMatchesEverything([]);
    LiteralMatchesItselfOnly("App", "App");
    MatchJoin("App", "*", "App", []);
    assert "App" + "*" == "App*" && "App" + [] == "App";
  }
}
