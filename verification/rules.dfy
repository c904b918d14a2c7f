/** The rule loader (src/dtweaks.c:205-269): every section of the rule file
    becomes a group transformer whose pattern is the section name; a plain
    key declares a key transformer, a key ending in `$` attaches an
    extractor regex to a key declared earlier in the same section. */
module Rules {
  import opened Base
  import opened Regex
  import opened Document

  /** `KeyTransformer` (src/dtweaks.c:79-83): the template and, if one was
      attached, the pattern of the extractor regex. */
  datatype KeyRule = KeyRule(template: String, extractor: Option<String>)

  /** `GroupTransformer` (src/dtweaks.c:95-100). */
  datatype GroupRule = GroupRule(pattern: String, rules: map<String, KeyRule>)

  /** The diagnostics the loader prints; each one clears the success flag. */
  datatype LoadError =
    | DanglingRegex(group: String, key: String)       // no plain `key` declared before `key$`
    | DuplicateRegex(group: String, key: String)      // `key` already has an extractor
    | RegexCompileFailed(group: String, key: String)  // the regex was not compiled

  /** The loader's state inside one section. `stale` records that the
      function-wide `GError` has been set by a failed compilation. */
  datatype LoadState = LoadState(rules: map<String, KeyRule>, errors: seq<LoadError>, stale: bool)

  /** A key naming an extractor: its last character is `$`. */
  predicate IsRegexKey(k: String) {
    |k| > 0 && k[|k| - 1] == '$'
  }

  /** The key a regex key refers to: the key without its final `$`. */
  function BaseKey(k: String): String
    requires IsRegexKey(k)
  {
    k[..|k| - 1]
  }

  lemma RegexKeyOf(x: String, k: String)
    ensures x == k + "$" <==> IsRegexKey(x) && BaseKey(x) == k
  {
    if IsRegexKey(x) && BaseKey(x) == k {
      assert x == x[..|x| - 1] + [x[|x| - 1]];
    }
  }

  /** One key of a rule section (src/dtweaks.c:224-266), with the value
      GKeyFile returns for it (see `Document.Reads`). When `sticky` is
      set, a failed compilation leaves the error set for the rest of the
      file, as the C code's never-cleared `GError` does; when it is clear,
      every compilation starts afresh. */
  function LoadEntry(oracle: Oracle, sticky: bool, group: String, st: LoadState, e: Entry): LoadState {
    if IsRegexKey(e.key) then
      var k := BaseKey(e.key);
      if k !in st.rules then st.(errors := st.errors + [DanglingRegex(group, k)])
      else if st.rules[k].extractor.Some? then st.(errors := st.errors + [DuplicateRegex(group, k)])
      else if st.stale || !oracle.compiles(e.value) then
        LoadState(st.rules, st.errors + [RegexCompileFailed(group, k)], sticky)
      else st.(rules := st.rules[k := st.rules[k].(extractor := Some(e.value))])
    else
      st.(rules := st.rules[e.key := KeyRule(e.value, None)])
  }

  /** The keys of one rule section, in file order, each with its value. */
  function LoadEntries(oracle: Oracle, sticky: bool, group: String, st: LoadState, es: seq<Entry>): LoadState
    decreases |es|
  {
    if |es| == 0 then st
    else LoadEntry(oracle, sticky, group, LoadEntries(oracle, sticky, group, st, es[..|es| - 1]), es[|es| - 1])
  }

  /** The rule set and the diagnostics of a whole rule file. */
  datatype Loaded = Loaded(groups: seq<GroupRule>, errors: seq<LoadError>, stale: bool)

  /** All sections in file order; `stale` carries the error state from one
      section to the next. */
  function LoadGroups(oracle: Oracle, sticky: bool, secs: seq<Section>, stale: bool): Loaded
    decreases |secs|
  {
    if |secs| == 0 then Loaded([], [], stale)
    else
      var st := LoadEntries(oracle, sticky, secs[0].name, LoadState(map[], [], stale), Reads(secs[0].entries));
      var rest := LoadGroups(oracle, sticky, secs[1..], st.stale);
      Loaded([GroupRule(secs[0].name, st.rules)] + rest.groups, st.errors + rest.errors, rest.stale)
  }

  /** Whatever the error state, a rule file becomes one group per section,
      in order, each with its section name as pattern. */
  lemma {:induction false} GroupPatterns(oracle: Oracle, sticky: bool, secs: seq<Section>, stale: bool)
    ensures var l := LoadGroups(oracle, sticky, secs, stale);
            && |l.groups| == |secs|
            && forall i :: 0 <= i < |secs| ==> l.groups[i].pattern == secs[i].name
    decreases |secs|
  {
    if |secs| > 0 {
      var st := LoadEntries(oracle, sticky, secs[0].name, LoadState(map[], [], stale), Reads(secs[0].entries));
      GroupPatterns(oracle, sticky, secs[1..], st.stale);
      var l := LoadGroups(oracle, sticky, secs, stale);
      forall i | 1 <= i < |secs| ensures l.groups[i].pattern == secs[i].name {
        assert l.groups[i] == LoadGroups(oracle, sticky, secs[1..], st.stale).groups[i - 1];
        assert secs[1..][i - 1] == secs[i];
      }
    }
  }

  /** The loader with every regex compiled independently. */
  function Load(oracle: Oracle, secs: seq<Section>): Loaded {
    LoadGroups(oracle, false, secs, false)
  }

  /** The loader as written: one failed compilation fails all later ones. */
  function LoadAsWritten(oracle: Oracle, secs: seq<Section>): Loaded {
    LoadGroups(oracle, true, secs, false)
  }

  // ---------------------------------------------------------------------
  // A reference description of one section's key transformers.

  /** The first regex for `k` from index `from` on that compiles. */
  function FirstCompiling(oracle: Oracle, es: seq<Entry>, from: nat, k: String): Option<String>
    decreases |es| - from
  {
    if from >= |es| then None
    else if es[from].key == k + "$" && oracle.compiles(es[from].value) then Some(es[from].value)
    else FirstCompiling(oracle, es, from + 1, k)
  }

  /** The keys a section declares plainly. */
  function PlainKeys(es: seq<Entry>): set<String> {
    set i | 0 <= i < |es| && !IsRegexKey(es[i].key) :: es[i].key
  }

  /** The transformer of plain key `k`: the template of its last plain
      declaration, and the first compiling regex given for it after that. */
  function RuleOf(oracle: Oracle, es: seq<Entry>, k: String): KeyRule
    requires k in PlainKeys(es)
  {
    var i := LastIndex(es, k).value;
    KeyRule(es[i].value, FirstCompiling(oracle, es, i + 1, k))
  }

  function ReferenceRules(oracle: Oracle, es: seq<Entry>): map<String, KeyRule> {
    map k | k in PlainKeys(es) :: RuleOf(oracle, es, k)
  }

  /** Regex entry `i` is accepted: its base key was declared plainly before
      it, no regex was attached since that declaration, and it compiles. */
  predicate Accepted(oracle: Oracle, es: seq<Entry>, i: nat)
    requires i < |es| && IsRegexKey(es[i].key)
  {
    var k := BaseKey(es[i].key);
    var pre := es[..i];
    && k in PlainKeys(pre)
    && FirstCompiling(oracle, pre, LastIndex(pre, k).value + 1, k).None?
    && oracle.compiles(es[i].value)
  }

  /** Every regex entry of the section is accepted. */
  predicate AllAccepted(oracle: Oracle, es: seq<Entry>) {
    forall i :: 0 <= i < |es| && IsRegexKey(es[i].key) ==> Accepted(oracle, es, i)
  }

  lemma PlainKeysSnoc(es: seq<Entry>)
    requires |es| > 0
    ensures PlainKeys(es) == PlainKeys(es[..|es| - 1]) +
              (if IsRegexKey(es[|es| - 1].key) then {} else {es[|es| - 1].key})
  {
    var p := es[..|es| - 1];
    forall k | k in PlainKeys(es)
      ensures k in PlainKeys(p) || (!IsRegexKey(es[|es| - 1].key) && k == es[|es| - 1].key)
    {
      var i :| 0 <= i < |es| && !IsRegexKey(es[i].key) && es[i].key == k;
      if i < |es| - 1 {
        assert p[i] == es[i];
      }
    }
    forall k | k in PlainKeys(p) ensures k in PlainKeys(es) {
      var i :| 0 <= i < |p| && !IsRegexKey(p[i].key) && p[i].key == k;
      assert es[i] == p[i];
    }
  }

  lemma PlainKeyHasLastIndex(es: seq<Entry>, k: String)
    ensures k in PlainKeys(es) <==> !IsRegexKey(k) && LastIndex(es, k).Some?
  {
    if LastIndex(es, k).Some? && !IsRegexKey(k) {
      var i := LastIndex(es, k).value;
      assert es[i].key == k;
    }
  }

  /** Appending an entry can only matter to `FirstCompiling` when nothing
      earlier was found. */
  lemma {:induction false} FirstCompilingSnoc(oracle: Oracle, es: seq<Entry>, from: nat, k: String)
    requires 0 < |es| && from < |es|
    ensures var p := es[..|es| - 1];
            var e := es[|es| - 1];
            FirstCompiling(oracle, es, from, k) ==
              if FirstCompiling(oracle, p, from, k).Some? then FirstCompiling(oracle, p, from, k)
              else if e.key == k + "$" && oracle.compiles(e.value) then Some(e.value)
              else None
    decreases |es| - from
  {
    var p := es[..|es| - 1];
    if from < |es| - 1 {
      assert es[from] == p[from];
      FirstCompilingSnoc(oracle, es, from + 1, k);
    } else {
      assert FirstCompiling(oracle, p, from, k) == None;
      assert FirstCompiling(oracle, es, from + 1, k) == None;
    }
  }

  /** How a section's reference transformer for an earlier plain key
      changes when one more entry is appended. */
  lemma RuleOfSnoc(oracle: Oracle, es: seq<Entry>, k: String)
    requires |es| > 0
    requires k in PlainKeys(es[..|es| - 1]) && k != es[|es| - 1].key
    ensures var p := es[..|es| - 1];
            var e := es[|es| - 1];
            k in PlainKeys(es) &&
            RuleOf(oracle, es, k) ==
              if e.key == k + "$" && RuleOf(oracle, p, k).extractor.None? && oracle.compiles(e.value)
              then RuleOf(oracle, p, k).(extractor := Some(e.value))
              else RuleOf(oracle, p, k)
  {
    var p := es[..|es| - 1];
    PlainKeysSnoc(es);
    var i := LastIndex(p, k).value;
    assert LastIndex(es, k) == Some(i);
    assert es[i] == p[i];
    FirstCompilingSnoc(oracle, es, i + 1, k);
  }

  /** A plain entry declares (or redeclares) its key with no extractor. */
  lemma ReferencePlainStep(oracle: Oracle, es: seq<Entry>)
    requires |es| > 0 && !IsRegexKey(es[|es| - 1].key)
    ensures var e := es[|es| - 1];
            ReferenceRules(oracle, es) ==
              ReferenceRules(oracle, es[..|es| - 1])[e.key := KeyRule(e.value, None)]
  {
    var p := es[..|es| - 1];
    var e := es[|es| - 1];
    var r := ReferenceRules(oracle, es);
    var q := ReferenceRules(oracle, p)[e.key := KeyRule(e.value, None)];
    PlainKeysSnoc(es);
    assert r.Keys == q.Keys;
    forall k | k in r ensures r[k] == q[k] {
      PlainStepAt(oracle, es, k);
    }
  }

  lemma PlainStepAt(oracle: Oracle, es: seq<Entry>, k: String)
    requires |es| > 0 && !IsRegexKey(es[|es| - 1].key) && k in PlainKeys(es)
    ensures k == es[|es| - 1].key ==> RuleOf(oracle, es, k) == KeyRule(es[|es| - 1].value, None)
    ensures k != es[|es| - 1].key ==>
              k in PlainKeys(es[..|es| - 1]) && RuleOf(oracle, es, k) == RuleOf(oracle, es[..|es| - 1], k)
  {
    var e := es[|es| - 1];
    PlainKeysSnoc(es);
    if k == e.key {
      assert LastIndex(es, k) == Some(|es| - 1);
      assert FirstCompiling(oracle, es, |es|, k) == None;
    } else {
      RegexKeyOf(e.key, k);
      RuleOfSnoc(oracle, es, k);
    }
  }

  lemma RegexStepAt(oracle: Oracle, es: seq<Entry>, k: String)
    requires |es| > 0 && IsRegexKey(es[|es| - 1].key)
    requires k in PlainKeys(es[..|es| - 1])
    ensures var p := es[..|es| - 1];
            var e := es[|es| - 1];
            k in PlainKeys(es) &&
            RuleOf(oracle, es, k) ==
              if k == BaseKey(e.key) && RuleOf(oracle, p, k).extractor.None? && oracle.compiles(e.value)
              then RuleOf(oracle, p, k).(extractor := Some(e.value))
              else RuleOf(oracle, p, k)
  {
    var p := es[..|es| - 1];
    var e := es[|es| - 1];
    PlainKeyHasLastIndex(p, k);
    assert k != e.key;
    RegexKeyOf(e.key, k);
    RuleOfSnoc(oracle, es, k);
  }

  lemma ReferenceRegexAttach(oracle: Oracle, es: seq<Entry>)
    requires |es| > 0 && IsRegexKey(es[|es| - 1].key)
    requires var q := ReferenceRules(oracle, es[..|es| - 1]);
             var k := BaseKey(es[|es| - 1].key);
             k in q && q[k].extractor.None? && oracle.compiles(es[|es| - 1].value)
    ensures var q := ReferenceRules(oracle, es[..|es| - 1]);
            var k := BaseKey(es[|es| - 1].key);
            ReferenceRules(oracle, es) == q[k := q[k].(extractor := Some(es[|es| - 1].value))]
  {
    var p := es[..|es| - 1];
    var k0 := BaseKey(es[|es| - 1].key);
    var q := ReferenceRules(oracle, p);
    var r := ReferenceRules(oracle, es);
    var w := q[k0 := q[k0].(extractor := Some(es[|es| - 1].value))];
    PlainKeysSnoc(es);
    assert r.Keys == w.Keys;
    forall k | k in r ensures r[k] == w[k] {
      RegexStepAt(oracle, es, k);
    }
  }

  lemma ReferenceRegexReject(oracle: Oracle, es: seq<Entry>)
    requires |es| > 0 && IsRegexKey(es[|es| - 1].key)
    requires var q := ReferenceRules(oracle, es[..|es| - 1]);
             var k := BaseKey(es[|es| - 1].key);
             !(k in q && q[k].extractor.None? && oracle.compiles(es[|es| - 1].value))
    ensures ReferenceRules(oracle, es) == ReferenceRules(oracle, es[..|es| - 1])
  {
    var q := ReferenceRules(oracle, es[..|es| - 1]);
    var r := ReferenceRules(oracle, es);
    PlainKeysSnoc(es);
    assert r.Keys == q.Keys;
    forall k | k in r ensures r[k] == q[k] {
      RegexStepAt(oracle, es, k);
    }
  }

  /** One step of the loader keeps the state equal to the reference. */
  lemma LoadEntryMatchesReference(oracle: Oracle, group: String, es: seq<Entry>, st: LoadState)
    requires |es| > 0
    requires st.rules == ReferenceRules(oracle, es[..|es| - 1]) && !st.stale
    ensures LoadEntry(oracle, false, group, st, es[|es| - 1]).rules == ReferenceRules(oracle, es)
    ensures !LoadEntry(oracle, false, group, st, es[|es| - 1]).stale
  {
    if IsRegexKey(es[|es| - 1].key) {
      var q := ReferenceRules(oracle, es[..|es| - 1]);
      var k := BaseKey(es[|es| - 1].key);
      if k in q && q[k].extractor.None? && oracle.compiles(es[|es| - 1].value) {
        ReferenceRegexAttach(oracle, es);
      } else {
        ReferenceRegexReject(oracle, es);
      }
    } else {
      ReferencePlainStep(oracle, es);
    }
  }

  /** One section's loader builds exactly the reference transformers. */
  lemma {:induction false} LoadEntriesMatchesReference(oracle: Oracle, group: String, es: seq<Entry>)
    ensures LoadEntries(oracle, false, group, LoadState(map[], [], false), es).rules == ReferenceRules(oracle, es)
    ensures !LoadEntries(oracle, false, group, LoadState(map[], [], false), es).stale
    decreases |es|
  {
    if |es| == 0 {
      assert PlainKeys(es) == {};
    } else {
      LoadEntriesMatchesReference(oracle, group, es[..|es| - 1]);
      LoadEntryMatchesReference(oracle, group, es,
        LoadEntries(oracle, false, group, LoadState(map[], [], false), es[..|es| - 1]));
    }
  }

  /** A step adds a diagnostic exactly when it meets a regex entry that is
      not accepted. */
  lemma LoadEntryErrors(oracle: Oracle, group: String, es: seq<Entry>, st: LoadState)
    requires |es| > 0
    requires st.rules == ReferenceRules(oracle, es[..|es| - 1]) && !st.stale
    ensures var e := es[|es| - 1];
            |LoadEntry(oracle, false, group, st, e).errors| ==
              |st.errors| + if IsRegexKey(e.key) && !Accepted(oracle, es, |es| - 1) then 1 else 0
  {
    var e := es[|es| - 1];
    if IsRegexKey(e.key) {
      var k := BaseKey(e.key);
      var p := es[..|es| - 1];
      assert es[..|es| - 1] == p;
      PlainKeyHasLastIndex(p, k);
    }
  }

  lemma AllAcceptedSnoc(oracle: Oracle, es: seq<Entry>)
    requires |es| > 0
    ensures AllAccepted(oracle, es) <==>
              AllAccepted(oracle, es[..|es| - 1])
              && (IsRegexKey(es[|es| - 1].key) ==> Accepted(oracle, es, |es| - 1))
  {
    var p := es[..|es| - 1];
    forall i | 0 <= i < |p| && IsRegexKey(es[i].key)
      ensures Accepted(oracle, es, i) == Accepted(oracle, p, i)
    {
      assert es[..i] == p[..i];
    }
  }

  /** One section loads without a diagnostic exactly when every regex
      entry in it is accepted. */
  lemma {:induction false} LoadEntriesErrors(oracle: Oracle, group: String, es: seq<Entry>)
    ensures |LoadEntries(oracle, false, group, LoadState(map[], [], false), es).errors| == 0
            <==> AllAccepted(oracle, es)
    decreases |es|
  {
    if |es| > 0 {
      var p := es[..|es| - 1];
      LoadEntriesErrors(oracle, group, p);
      LoadEntriesMatchesReference(oracle, group, p);
      LoadEntryErrors(oracle, group, es, LoadEntries(oracle, false, group, LoadState(map[], [], false), p));
      AllAcceptedSnoc(oracle, es);
    }
  }

  /** The loader never gives up: every section becomes a group, in file
      order and under its own name, holding exactly the reference
      transformers of that section's keys and values whatever went wrong
      elsewhere, and the load succeeds exactly when every regex entry is
      accepted. */
  lemma {:induction false} LoadIsPerSection(oracle: Oracle, secs: seq<Section>)
    ensures var l := Load(oracle, secs);
            && |l.groups| == |secs|
            && (forall i :: 0 <= i < |secs| ==>
                  l.groups[i] == GroupRule(secs[i].name, ReferenceRules(oracle, Reads(secs[i].entries))))
            && (|l.errors| == 0 <==> forall i :: 0 <= i < |secs| ==> AllAccepted(oracle, Reads(secs[i].entries)))
            && !l.stale
    decreases |secs|
  {
    if |secs| > 0 {
      LoadEntriesMatchesReference(oracle, secs[0].name, Reads(secs[0].entries));
      LoadEntriesErrors(oracle, secs[0].name, Reads(secs[0].entries));
      LoadIsPerSection(oracle, secs[1..]);
      var l := Load(oracle, secs);
      var rest := Load(oracle, secs[1..]);
      assert l.groups[1..] == rest.groups;
      forall i | 1 <= i < |secs|
        ensures l.groups[i] == GroupRule(secs[i].name, ReferenceRules(oracle, Reads(secs[i].entries)))
      {
        assert l.groups[i] == rest.groups[i - 1];
        assert secs[1..][i - 1] == secs[i];
      }
      if forall i :: 0 <= i < |secs| ==> AllAccepted(oracle, Reads(secs[i].entries)) {
        forall i | 0 <= i < |secs| - 1 ensures AllAccepted(oracle, Reads(secs[1..][i].entries)) {
          assert secs[1..][i] == secs[i + 1];
        }
      }
      if forall i :: 0 <= i < |secs[1..]| ==> AllAccepted(oracle, Reads(secs[1..][i].entries)) {
        forall i | 1 <= i < |secs| ensures AllAccepted(oracle, Reads(secs[i].entries)) {
          assert secs[1..][i - 1] == secs[i];
        }
      }
    }
  }

  // ---------------------------------------------------------------------
  // The loader as written.

  /** Every regex entry of the rule file names a pattern that compiles. */
  predicate AllRegexesCompile(oracle: Oracle, secs: seq<Section>) {
    forall i, j :: 0 <= i < |secs| && 0 <= j < |secs[i].entries| && IsRegexKey(secs[i].entries[j].key)
      ==> oracle.compiles(secs[i].entries[j].value)
  }

  lemma {:induction false} StickyEntriesAgree(oracle: Oracle, group: String, st: LoadState, es: seq<Entry>)
    requires !st.stale
    requires forall j :: 0 <= j < |es| && IsRegexKey(es[j].key) ==> oracle.compiles(es[j].value)
    ensures LoadEntries(oracle, true, group, st, es) == LoadEntries(oracle, false, group, st, es)
    ensures !LoadEntries(oracle, true, group, st, es).stale
    decreases |es|
  {
    if |es| > 0 {
      StickyEntriesAgree(oracle, group, st, es[..|es| - 1]);
    }
  }

  /** A value read for a regex key is the value of one of that key's
      lines. */
  lemma ReadsCompile(oracle: Oracle, es: seq<Entry>)
    requires forall j :: 0 <= j < |es| && IsRegexKey(es[j].key) ==> oracle.compiles(es[j].value)
    ensures forall j :: 0 <= j < |es| && IsRegexKey(Reads(es)[j].key) ==> oracle.compiles(Reads(es)[j].value)
  {
    forall j | 0 <= j < |es| && IsRegexKey(Reads(es)[j].key) ensures oracle.compiles(Reads(es)[j].value) {
      var i := LastIndex(es, es[j].key).value;
      assert es[i].key == es[j].key;
    }
  }

  /** The never-cleared error only matters once a regex has failed to
      compile: without such a failure the loader as written and the
      corrected loader build the same rules and report the same errors. */
  lemma {:induction false} AsWrittenAgreesWithoutCompileFailure(oracle: Oracle, secs: seq<Section>)
    requires AllRegexesCompile(oracle, secs)
    ensures LoadAsWritten(oracle, secs) == Load(oracle, secs)
    decreases |secs|
  {
    if |secs| > 0 {
      ReadsCompile(oracle, secs[0].entries);
      StickyEntriesAgree(oracle, secs[0].name, LoadState(map[], [], false), Reads(secs[0].entries));
      LoadEntriesMatchesReference(oracle, secs[0].name, Reads(secs[0].entries));
      assert AllRegexesCompile(oracle, secs[1..]) by {
        forall i, j | 0 <= i < |secs[1..]| && 0 <= j < |secs[1..][i].entries|
                      && IsRegexKey(secs[1..][i].entries[j].key)
          ensures oracle.compiles(secs[1..][i].entries[j].value)
        {
          assert secs[1..][i] == secs[i + 1];
        }
      }
      AsWrittenAgreesWithoutCompileFailure(oracle, secs[1..]);
    }
  }

  /** Starting from the same state, the two loaders stay equal until a
      compilation fails, and that failure is reported by both. */
  lemma {:induction false} StickyEntriesDiverge(oracle: Oracle, group: String, st: LoadState, es: seq<Entry>)
    requires !st.stale
    ensures var a := LoadEntries(oracle, true, group, st, es);
            var b := LoadEntries(oracle, false, group, st, es);
            (a == b && !a.stale) || (|a.errors| > |st.errors| && |b.errors| > |st.errors|)
    decreases |es|
  {
    if |es| > 0 {
      var p := es[..|es| - 1];
      var e := es[|es| - 1];
      StickyEntriesDiverge(oracle, group, st, p);
      var ap := LoadEntries(oracle, true, group, st, p);
      var bp := LoadEntries(oracle, false, group, st, p);
      LoadEntriesKeepErrors(oracle, true, group, st, p);
      LoadEntriesKeepErrors(oracle, false, group, st, p);
      StickyEntryDiverges(oracle, group, ap, bp, e, |st.errors|);
      assert LoadEntries(oracle, true, group, st, es) == LoadEntry(oracle, true, group, ap, e);
      assert LoadEntries(oracle, false, group, st, es) == LoadEntry(oracle, false, group, bp, e);
    }
  }

  /** One key line keeps the two loaders either equal with a clear error,
      or both past `n` errors. */
  lemma StickyEntryDiverges(oracle: Oracle, group: String, a: LoadState, b: LoadState, e: Entry, n: nat)
    requires |a.errors| >= n && |b.errors| >= n
    requires (a == b && !a.stale) || (|a.errors| > n && |b.errors| > n)
    ensures var a' := LoadEntry(oracle, true, group, a, e);
            var b' := LoadEntry(oracle, false, group, b, e);
            (a' == b' && !a'.stale) || (|a'.errors| > n && |b'.errors| > n)
  {
  }

  /** Errors are only ever added. */
  lemma {:induction false} LoadEntriesKeepErrors(oracle: Oracle, sticky: bool, group: String, st: LoadState, es: seq<Entry>)
    ensures st.errors <= LoadEntries(oracle, sticky, group, st, es).errors
    ensures |LoadEntries(oracle, sticky, group, st, es).errors| >= |st.errors|
    decreases |es|
  {
    if |es| > 0 {
      LoadEntriesKeepErrors(oracle, sticky, group, st, es[..|es| - 1]);
    }
  }

  /** Either the loader as written agrees with the corrected one on the
      whole file, or both report an error: a rule file loads without error
      as written exactly when it does after the correction. */
  lemma {:induction false} AsWrittenFailsLikeCorrected(oracle: Oracle, secs: seq<Section>)
    ensures var a := LoadAsWritten(oracle, secs);
            var b := Load(oracle, secs);
            (a == b && !a.stale) || (|a.errors| > 0 && |b.errors| > 0)
    decreases |secs|
  {
    if |secs| > 0 {
      var st0 := LoadState(map[], [], false);
      var es := Reads(secs[0].entries);
      StickyEntriesDiverge(oracle, secs[0].name, st0, es);
      AsWrittenFailsLikeCorrected(oracle, secs[1..]);
      var sa := LoadEntries(oracle, true, secs[0].name, st0, es);
      if sa.stale {
        LoadEntriesKeepErrors(oracle, true, secs[0].name, st0, es);
      }
    }
  }

  /** The loader as written reports a section's problems exactly when the
      corrected one does: the section loads without a diagnostic exactly
      when every regex entry in it is accepted. */
  lemma LoadEntriesErrorsAsWritten(oracle: Oracle, group: String, es: seq<Entry>)
    ensures |LoadEntries(oracle, true, group, LoadState(map[], [], false), es).errors| == 0
            <==> AllAccepted(oracle, es)
  {
    LoadEntriesErrors(oracle, group, es);
    StickyEntriesDiverge(oracle, group, LoadState(map[], [], false), es);
  }

  /** A rule file loads without error as written exactly when every
      section's regex entries are accepted, and an error left set always
      comes with a diagnostic. */
  lemma LoadAsWrittenErrors(oracle: Oracle, secs: seq<Section>)
    ensures var l := LoadAsWritten(oracle, secs);
            && (|l.errors| == 0 <==> forall i :: 0 <= i < |secs| ==> AllAccepted(oracle, Reads(secs[i].entries)))
            && (l.stale ==> |l.errors| > 0)
  {
    LoadIsPerSection(oracle, secs);
    AsWrittenFailsLikeCorrected(oracle, secs);
  }
}
