/** The extractor regular expressions (GRegex over PCRE) as an oracle: the
    model never interprets a pattern, it only asks whether one compiles and
    what a match of it against a value captured. */
module Regex {
  import opened Base

  /** One capture group of a successful match. */
  datatype Group =
    | Captured(text: String)  // the group took part in the match
    | Unset                   // the group exists but did not take part

  /** A successful match: positional groups (index 0 is the whole match)
      and named groups. A group number past `positional`, or a name not in
      `named`, is a group the pattern does not have. */
  datatype MatchInfo = MatchInfo(positional: seq<Group>, named: map<String, Group>)

  /** What the regex library answers. A compiled regex is identified by
      the pattern text it was compiled from. */
  datatype Oracle = Oracle(
    compiles: String -> bool,                  // `g_regex_new` succeeds
    exec: (String, String) -> Option<MatchInfo>  // `g_regex_match(pattern, subject)`
  )

  /** The text GLib hands back for an existing group: an unset group reads
      as the empty string, not as NULL. */
  function GroupText(g: Group): String {
    match g
    case Captured(t) => t
    case Unset => []
  }

  /** `g_match_info_fetch_named`: NULL exactly when there is no such name. */
  function FetchNamed(m: MatchInfo, name: String): (r: Option<String>)
    ensures r.None? <==> name !in m.named
  {
    if name in m.named then Some(GroupText(m.named[name])) else None
  }

  /** `g_match_info_fetch`: NULL exactly when the pattern has no such group. */
  function Fetch(m: MatchInfo, n: nat): (r: Option<String>)
    ensures r.None? <==> n >= |m.positional|
  {
    if n < |m.positional| then Some(GroupText(m.positional[n])) else None
  }
}
