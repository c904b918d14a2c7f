/** A parsed key file (`GKeyFile`): an ordered list of sections, each an
    ordered list of key/value pairs holding the raw, still-escaped value
    text. Both the rule file and the target desktop entry have this shape. */
module Document {
  import opened Base

  datatype Entry = Entry(key: String, value: String)

  datatype Section = Section(name: String, entries: seq<Entry>)

  /** The keys of a section in file order (`g_key_file_get_keys`). */
  function Keys(entries: seq<Entry>): (ks: seq<String>)
    ensures |ks| == |entries|
    ensures forall i :: 0 <= i < |entries| ==> ks[i] == entries[i].key
  {
    if |entries| == 0 then [] else [entries[0].key] + Keys(entries[1..])
  }

  /** No key occurs twice in the section. GKeyFile keeps a repeated key
      line as it is: the key is listed once per line, and reads and writes
      go to its last line. A target section is assumed to hold each key
      once where this is required. */
  predicate DistinctKeys(entries: seq<Entry>) {
    forall i, j :: 0 <= i < j < |entries| ==> entries[i].key != entries[j].key
  }

  /** GKeyFile merges sections of the same name, so names are distinct;
      distinct keys within each section are an assumption about the file. */
  predicate WellFormed(doc: seq<Section>) {
    && (forall i, j :: 0 <= i < j < |doc| ==> doc[i].name != doc[j].name)
    && (forall i :: 0 <= i < |doc| ==> DistinctKeys(doc[i].entries))
  }

  /** Position of the last entry with key `k`: the line GKeyFile's lookup
      table holds for the key. */
  function LastIndex(entries: seq<Entry>, k: String): (r: Option<nat>)
    ensures r.Some? ==> r.value < |entries| && entries[r.value].key == k
                        && forall j :: r.value < j < |entries| ==> entries[j].key != k
    ensures r.None? ==> forall j :: 0 <= j < |entries| ==> entries[j].key != k
    decreases |entries|
  {
    if |entries| == 0 then None
    else if entries[|entries| - 1].key == k then Some(|entries| - 1)
    else LastIndex(entries[..|entries| - 1], k)
  }

  /** `g_key_file_get_value`: the value of the key's last line, NULL when
      the key is absent. */
  function GetValue(entries: seq<Entry>, k: String): Option<String> {
    match LastIndex(entries, k)
    case None => None
    case Some(i) => Some(entries[i].value)
  }

  /** `g_key_file_set_value`: overwrite the value of the key's last line in
      place, or add the key at the end of the section when it is absent. */
  function SetValue(entries: seq<Entry>, k: String, v: String): (r: seq<Entry>)
    ensures GetValue(r, k) == Some(v)
    ensures forall k' :: k' != k ==> GetValue(r, k') == GetValue(entries, k')
    ensures GetValue(entries, k).Some? ==> Keys(r) == Keys(entries)
  {
    match LastIndex(entries, k)
    case None =>
      var r := entries + [Entry(k, v)];
      forall k' ensures LastIndex(r, k') == (if k' == k then Some(|entries|) else LastIndex(entries, k')) {
        assert r[..|r| - 1] == entries;
      }
      r
    case Some(i) =>
      var r := entries[i := Entry(k, v)];
      forall k' ensures LastIndex(r, k') == LastIndex(entries, k') {
        if LastIndex(entries, k').Some? {
          LastIndexAt(r, k', LastIndex(entries, k').value);
        } else {
          LastIndexAbsent(r, k');
        }
      }
      r
  }

  /** Writing a key present at line `i` changes that line only. */
  lemma SetValueAt(entries: seq<Entry>, k: String, i: nat, v: String)
    requires LastIndex(entries, k) == Some(i)
    ensures SetValue(entries, k, v) == entries[i := Entry(k, v)]
  {
  }

  /** The last entry carrying key `k` is the one `LastIndex` finds. */
  lemma {:induction false} LastIndexAt(entries: seq<Entry>, k: String, i: nat)
    requires i < |entries| && entries[i].key == k
    requires forall j :: i < j < |entries| ==> entries[j].key != k
    ensures LastIndex(entries, k) == Some(i)
    decreases |entries|
  {
    if i < |entries| - 1 {
      LastIndexAt(entries[..|entries| - 1], k, i);
    }
  }

  lemma {:induction false} LastIndexAbsent(entries: seq<Entry>, k: String)
    requires forall j :: 0 <= j < |entries| ==> entries[j].key != k
    ensures LastIndex(entries, k) == None
    decreases |entries|
  {
    if |entries| > 0 {
      LastIndexAbsent(entries[..|entries| - 1], k);
    }
  }

  /** What a loop over `g_key_file_get_keys` reading every key with
      `g_key_file_get_value` sees: each line's key, paired with the value
      GKeyFile returns for that key. A listed key always has a value. */
  function Reads(entries: seq<Entry>): (r: seq<Entry>)
    ensures |r| == |entries|
    ensures forall i :: 0 <= i < |entries| ==>
              r[i].key == entries[i].key && GetValue(entries, entries[i].key) == Some(r[i].value)
  {
    seq(|entries|, i requires 0 <= i < |entries| =>
      match LastIndex(entries, entries[i].key)
      case Some(j) => Entry(entries[i].key, entries[j].value)
      case None => assert false; Entry([], []))
  }

  /** Without repeated keys every line reads back its own value. */
  lemma ReadsOfDistinct(entries: seq<Entry>)
    requires DistinctKeys(entries)
    ensures Reads(entries) == entries
  {
    forall i | 0 <= i < |entries| ensures Reads(entries)[i] == entries[i] {
      LastIndexAt(entries, entries[i].key, i);
    }
  }
}
