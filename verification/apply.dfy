/** Matching rule groups to target sections and rewriting keys
    (src/dtweaks.c:148-177 and 271-284), and the success flag and output of
    one target file (src/dtweaks.c:180-297). */
module Apply {
  import opened Base
  import opened Regex
  import opened Document
  import opened Glob
  import opened Template
  import opened Rules

  /** The group applied to a section: the first one, in rule-file order,
      whose pattern matches the whole section name. */
  function FindGroup(groups: seq<GroupRule>, name: String): (r: Option<nat>)
    ensures r.Some? ==> r.value < |groups| && Matches(groups[r.value].pattern, name)
                        && forall j :: 0 <= j < r.value ==> !Matches(groups[j].pattern, name)
    ensures r.None? ==> forall j :: 0 <= j < |groups| ==> !Matches(groups[j].pattern, name)
  {
    if |groups| == 0 then None
    else if Matches(groups[0].pattern, name) then Some(0)
    else match FindGroup(groups[1..], name)
      case None => None
      case Some(j) => Some(j + 1)
  }

  /** The new value of one key, or `None` when the key's extractor does
      not match its value and the key is skipped (src/dtweaks.c:162-174).
      The template is rendered by `Template.Render`, which copies every
      literal character whole; the byte cut of src/dtweaks.c:127 is
      `Template.RenderAsWritten`. */
  function ApplyKey(oracle: Oracle, kr: KeyRule, value: String): Option<String> {
    match kr.extractor
    case None => Some(Render(kr.template, value, None))
    case Some(pattern) =>
      match oracle.exec(pattern, value)
      case None => None
      case Some(info) => Some(Render(kr.template, value, Some(info)))
  }

  /** One iteration of `apply_tweaks`: read the key's current value, and
      write the rendered template back if the key has a transformer whose
      extractor (if any) matches. */
  function ApplyStep(oracle: Oracle, rules: map<String, KeyRule>, entries: seq<Entry>, k: String): seq<Entry> {
    match GetValue(entries, k)
    case None => entries  // never taken: `k` comes from the section's own key list
    case Some(value) =>
      if k !in rules then entries
      else match ApplyKey(oracle, rules[k], value)
        case None => entries
        case Some(nv) => SetValue(entries, k, nv)
  }

  /** The loop of `apply_tweaks` over a snapshot of the section's keys. */
  function ApplyWalk(oracle: Oracle, rules: map<String, KeyRule>, keys: seq<String>, entries: seq<Entry>): seq<Entry>
    decreases |keys|
  {
    if |keys| == 0 then entries
    else ApplyWalk(oracle, rules, keys[1..], ApplyStep(oracle, rules, entries, keys[0]))
  }

  /** `apply_tweaks` on one target section. */
  function ApplySection(oracle: Oracle, g: GroupRule, entries: seq<Entry>): seq<Entry> {
    ApplyWalk(oracle, g.rules, Keys(entries), entries)
  }

  /** What happens to one entry of a section the group `rules` applies to. */
  function Rewritten(oracle: Oracle, rules: map<String, KeyRule>, e: Entry): (r: Entry)
    ensures r.key == e.key
    ensures e.key !in rules ==> r == e
    ensures e.key in rules && rules[e.key].extractor.None? ==>
              r.value == Render(rules[e.key].template, e.value, None)
    ensures (e.key in rules && rules[e.key].extractor.Some?
             && oracle.exec(rules[e.key].extractor.value, e.value).None?) ==> r == e
    ensures (e.key in rules && rules[e.key].extractor.Some?
             && oracle.exec(rules[e.key].extractor.value, e.value).Some?) ==>
              r.value == Render(rules[e.key].template, e.value,
                                oracle.exec(rules[e.key].extractor.value, e.value))
  {
    if e.key !in rules then e
    else match ApplyKey(oracle, rules[e.key], e.value)
      case None => e
      case Some(v) => Entry(e.key, v)
  }

  /** The first `n` entries rewritten, the rest as they were. */
  function Partly(oracle: Oracle, rules: map<String, KeyRule>, orig: seq<Entry>, n: nat): (r: seq<Entry>)
    ensures |r| == |orig|
  {
    seq(|orig|, i requires 0 <= i < |orig| => if i < n then Rewritten(oracle, rules, orig[i]) else orig[i])
  }

  /** Partial rewriting keeps every key, and entry `n` is still untouched. */
  lemma PartlyKeeps(oracle: Oracle, rules: map<String, KeyRule>, orig: seq<Entry>, n: nat)
    requires n < |orig|
    ensures forall j :: 0 <= j < |orig| ==> Partly(oracle, rules, orig, n)[j].key == orig[j].key
    ensures Partly(oracle, rules, orig, n)[n] == orig[n]
  {
  }

  /** A step on a key read from its own line rewrites that line only. */
  lemma StepAt(oracle: Oracle, rules: map<String, KeyRule>, cur: seq<Entry>, n: nat)
    requires n < |cur| && LastIndex(cur, cur[n].key) == Some(n)
    ensures ApplyStep(oracle, rules, cur, cur[n].key) == cur[n := Rewritten(oracle, rules, cur[n])]
  {
    var k := cur[n].key;
    assert GetValue(cur, k) == Some(cur[n].value);
    if k !in rules {
      assert cur[n := cur[n]] == cur;
    } else {
      match ApplyKey(oracle, rules[k], cur[n].value)
      case None =>
        assert cur[n := cur[n]] == cur;
      case Some(v) =>
        SetValueAt(cur, k, n, v);
    }
  }

  lemma PartlyStep(oracle: Oracle, rules: map<String, KeyRule>, orig: seq<Entry>, n: nat)
    requires n < |orig| && DistinctKeys(orig)
    ensures ApplyStep(oracle, rules, Partly(oracle, rules, orig, n), orig[n].key) == Partly(oracle, rules, orig, n + 1)
  {
    var cur := Partly(oracle, rules, orig, n);
    PartlyKeeps(oracle, rules, orig, n);
    LastIndexAt(cur, orig[n].key, n);
    StepAt(oracle, rules, cur, n);
    var want := Partly(oracle, rules, orig, n + 1);
    assert forall i :: 0 <= i < |orig| ==> want[i] == cur[n := Rewritten(oracle, rules, orig[n])][i];
  }

  lemma {:induction false} WalkFrom(oracle: Oracle, rules: map<String, KeyRule>, orig: seq<Entry>, n: nat)
    requires n <= |orig| && DistinctKeys(orig)
    ensures ApplyWalk(oracle, rules, Keys(orig)[n..], Partly(oracle, rules, orig, n)) == Partly(oracle, rules, orig, |orig|)
    decreases |orig| - n
  {
    if n < |orig| {
      assert Keys(orig)[n..][1..] == Keys(orig)[n + 1..];
      PartlyStep(oracle, rules, orig, n);
      WalkFrom(oracle, rules, orig, n + 1);
    } else {
      assert Partly(oracle, rules, orig, n) == Partly(oracle, rules, orig, |orig|);
    }
  }

  /** Walking the keys one by one and reading each value afresh amounts to
      rewriting every entry independently: keys and their order are kept,
      a key without a transformer keeps its value, a key whose extractor
      does not match keeps its value, and every other key gets its
      rendered template. */
  lemma ApplySectionPointwise(oracle: Oracle, g: GroupRule, entries: seq<Entry>)
    requires DistinctKeys(entries)
    ensures |ApplySection(oracle, g, entries)| == |entries|
    ensures forall i :: 0 <= i < |entries| ==>
              ApplySection(oracle, g, entries)[i] == Rewritten(oracle, g.rules, entries[i])
  {
    assert Partly(oracle, g.rules, entries, 0) == entries;
    assert Keys(entries)[0..] == Keys(entries);
    WalkFrom(oracle, g.rules, entries, 0);
  }

  /** One target section: rewritten by the first matching group, if any. */
  function ApplyToSection(oracle: Oracle, groups: seq<GroupRule>, s: Section): Section {
    match FindGroup(groups, s.name)
    case None => s
    case Some(i) => Section(s.name, ApplySection(oracle, groups[i], s.entries))
  }

  /** The loop over the target's sections (src/dtweaks.c:271-284). */
  function ApplyDocument(oracle: Oracle, groups: seq<GroupRule>, doc: seq<Section>): (r: seq<Section>)
    ensures |r| == |doc|
  {
    seq(|doc|, i requires 0 <= i < |doc| => ApplyToSection(oracle, groups, doc[i]))
  }

  /** Every section keeps its name and place; a section no group matches
      is unchanged; any other is rewritten entry by entry by the first
      matching group only. */
  lemma ApplyDocumentEffect(oracle: Oracle, groups: seq<GroupRule>, doc: seq<Section>, i: nat)
    requires WellFormed(doc) && i < |doc|
    ensures ApplyDocument(oracle, groups, doc)[i].name == doc[i].name
    ensures FindGroup(groups, doc[i].name).None? ==> ApplyDocument(oracle, groups, doc)[i] == doc[i]
    ensures FindGroup(groups, doc[i].name).Some? ==>
              var g := groups[FindGroup(groups, doc[i].name).value];
              var es := ApplyDocument(oracle, groups, doc)[i].entries;
              |es| == |doc[i].entries|
              && forall j :: 0 <= j < |es| ==> es[j] == Rewritten(oracle, g.rules, doc[i].entries[j])
  {
    if FindGroup(groups, doc[i].name).Some? {
      ApplySectionPointwise(oracle, groups[FindGroup(groups, doc[i].name).value], doc[i].entries);
    }
  }

  // ---------------------------------------------------------------------
  // One target file.

  /** What the search for a rule file with the target's base name found. */
  datatype RuleSource = NoRuleFile | RuleFileUnreadable | RuleFile(sections: seq<Section>)

  /** Dry run prints the result; otherwise it is saved, which the file
      system may refuse. */
  datatype Mode = Preview | Persist(saveSucceeds: bool)

  datatype Effect = Untouched | Printed(doc: seq<Section>) | Saved(doc: seq<Section>)

  datatype Outcome = Outcome(effect: Effect, ok: bool)

  /** `process_file` (src/dtweaks.c:180-297) given what the file system
      holds: the rule file found for the target, the parsed target (`None`
      when it cannot be read) and the output mode. */
  function ProcessWith(oracle: Oracle, sticky: bool, rules: RuleSource, target: Option<seq<Section>>, mode: Mode): Outcome {
    if rules.NoRuleFile? then Outcome(Untouched, true)
    else if target.None? || rules.RuleFileUnreadable? then Outcome(Untouched, false)
    else
      var loaded := LoadGroups(oracle, sticky, rules.sections, false);
      var result := ApplyDocument(oracle, loaded.groups, target.value);
      var loadOk := |loaded.errors| == 0;
      match mode
      case Preview => Outcome(Printed(result), loadOk)
      case Persist(saveSucceeds) =>
        // A GError left set by a failed compilation makes the save refuse to run.
        if loaded.stale || !saveSucceeds then Outcome(Untouched, false)
        else Outcome(Saved(result), loadOk)
  }

  /** `process_file` with every regex compiled independently. */
  function ProcessFile(oracle: Oracle, rules: RuleSource, target: Option<seq<Section>>, mode: Mode): Outcome {
    ProcessWith(oracle, false, rules, target, mode)
  }

  /** `process_file` with the `GError` left set after a failed compilation,
      as written. Templates are still rendered by the corrected renderer
      `Template.Render`: the byte cut of the other finding is kept apart in
      `Template.RenderAsWritten`. */
  function ProcessFileAsWritten(oracle: Oracle, rules: RuleSource, target: Option<seq<Section>>, mode: Mode): Outcome {
    ProcessWith(oracle, true, rules, target, mode)
  }

  /** A target with no rule file succeeds untouched; an unreadable target
      or rule file fails untouched; otherwise the result is the target with
      the rule file's groups applied, and the file succeeds exactly when
      every regex entry of the rule file is accepted and the result could
      be printed or saved. */
  lemma ProcessFileOutcome(oracle: Oracle, rules: RuleSource, target: Option<seq<Section>>, mode: Mode)
    ensures rules.NoRuleFile? ==> ProcessFile(oracle, rules, target, mode) == Outcome(Untouched, true)
    ensures !rules.NoRuleFile? && (target.None? || rules.RuleFileUnreadable?) ==>
              ProcessFile(oracle, rules, target, mode) == Outcome(Untouched, false)
    ensures rules.RuleFile? && target.Some? ==>
              var out := ProcessFile(oracle, rules, target, mode);
              var result := ApplyDocument(oracle, Load(oracle, rules.sections).groups, target.value);
              && (out.ok <==> (forall i :: 0 <= i < |rules.sections| ==> AllAccepted(oracle, Reads(rules.sections[i].entries)))
                              && (mode.Preview? || mode.saveSucceeds))
              && out.effect == (if mode.Preview? then Printed(result)
                                else if mode.saveSucceeds then Saved(result) else Untouched)
  {
    if rules.RuleFile? {
      LoadIsPerSection(oracle, rules.sections);
    }
  }

  /** The groups a rule file's sections become are matched by their
      section names, by either loader: the group applied to a target
      section is the first rule section whose name, read as a pattern,
      matches it. */
  lemma LoadedGroupMatch(oracle: Oracle, sticky: bool, secs: seq<Section>, name: String)
    ensures var r := FindGroup(LoadGroups(oracle, sticky, secs, false).groups, name);
            && (r.Some? ==>
                  && r.value < |secs| && Matches(secs[r.value].name, name)
                  && forall j :: 0 <= j < r.value ==> !Matches(secs[j].name, name))
            && (r.None? ==> forall j :: 0 <= j < |secs| ==> !Matches(secs[j].name, name))
  {
    GroupPatterns(oracle, sticky, secs, false);
  }

  /** The never-cleared error never changes whether a file succeeds; and
      when every regex of the rule file compiles it changes nothing at
      all. */
  lemma AsWrittenOutcome(oracle: Oracle, rules: RuleSource, target: Option<seq<Section>>, mode: Mode)
    ensures ProcessFileAsWritten(oracle, rules, target, mode).ok == ProcessFile(oracle, rules, target, mode).ok
    ensures rules.RuleFile? && AllRegexesCompile(oracle, rules.sections) ==>
              ProcessFileAsWritten(oracle, rules, target, mode) == ProcessFile(oracle, rules, target, mode)
  {
    if rules.RuleFile? {
      AsWrittenFailsLikeCorrected(oracle, rules.sections);
      if AllRegexesCompile(oracle, rules.sections) {
        AsWrittenAgreesWithoutCompileFailure(oracle, rules.sections);
        LoadIsPerSection(oracle, rules.sections);
      }
    }
  }

  /** As written, once a failed compilation has left the error set, the
      save refuses to run: the target is never written and the file
      fails. */
  lemma AsWrittenStaleNeverSaves(oracle: Oracle, secs: seq<Section>, target: seq<Section>, saveSucceeds: bool)
    ensures LoadAsWritten(oracle, secs).stale ==>
              ProcessFileAsWritten(oracle, RuleFile(secs), Some(target), Persist(saveSucceeds)) == Outcome(Untouched, false)
  {
  }

  /** `process_file` as written: the early returns are those of the
      corrected version; otherwise the target rewritten by the groups the
      loader as written builds is printed, or saved when the save succeeds
      and no error was left set; and the file succeeds exactly when every
      regex entry is accepted and the result could be printed or saved. */
  lemma ProcessFileAsWrittenOutcome(oracle: Oracle, rules: RuleSource, target: Option<seq<Section>>, mode: Mode)
    ensures rules.NoRuleFile? ==> ProcessFileAsWritten(oracle, rules, target, mode) == Outcome(Untouched, true)
    ensures !rules.NoRuleFile? && (target.None? || rules.RuleFileUnreadable?) ==>
              ProcessFileAsWritten(oracle, rules, target, mode) == Outcome(Untouched, false)
    ensures rules.RuleFile? && target.Some? ==>
              var out := ProcessFileAsWritten(oracle, rules, target, mode);
              var loaded := LoadAsWritten(oracle, rules.sections);
              var result := ApplyDocument(oracle, loaded.groups, target.value);
              && (out.ok <==> (forall i :: 0 <= i < |rules.sections| ==> AllAccepted(oracle, Reads(rules.sections[i].entries)))
                              && (mode.Preview? || mode.saveSucceeds))
              && out.effect == (if mode.Preview? then Printed(result)
                                else if mode.saveSucceeds && !loaded.stale then Saved(result) else Untouched)
  {
    if rules.RuleFile? {
      LoadAsWrittenErrors(oracle, rules.sections);
    }
  }
}
