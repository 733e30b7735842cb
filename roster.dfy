/** The roster reply's text. The source joins the member ids with "," the way
    Go's strings.Join does; Split is the reading a client would apply to it,
    and is here only as the partner that Join's round trip is stated against. */
module Roster {

  /** Go's strings.Join: the parts with `sep` between neighbours, and the
      empty string for no parts at all. */
  function Join(parts: seq<string>, sep: string): (r: string)
  {
    if |parts| == 0 then ""
    else if |parts| == 1 then parts[0]
    else parts[0] + sep + Join(parts[1..], sep)
  }

  /** The position of the first occurrence of `c` in `s`. */
  function IndexOf(s: string, c: char): (i: nat)
    requires c in s
    ensures i < |s| && s[i] == c && c !in s[..i]
  {
    if s[0] == c then 0
    else
      assert c in s[1..] by { assert s == [s[0]] + s[1..]; }
      1 + IndexOf(s[1..], c)
  }

  /** Go's strings.Split with a one-character separator: always at least one
      piece, and no piece holds the separator. */
  function Split(s: string, sep: char): (r: seq<string>)
    ensures |r| >= 1
    ensures forall k :: 0 <= k < |r| ==> sep !in r[k]
    decreases |s|
  {
    if sep !in s then [s]
    else
      var i := IndexOf(s, sep);
      [s[..i]] + Split(s[i + 1..], sep)
  }

  /** The first separator of `p + [sep] + rest` sits right after `p` when `p`
      holds none. */
  lemma FirstSeparator(p: string, sep: char, rest: string)
    requires sep !in p
    ensures sep in p + [sep] + rest
    ensures IndexOf(p + [sep] + rest, sep) == |p|
  {
    var s := p + [sep] + rest;
    assert s[|p|] == sep;
  }

  /** A non-empty roster whose ids hold no separator is read back exactly:
      splitting the joined text yields the same ids in the same order. */
  lemma {:induction false} SplitJoin(parts: seq<string>, sep: char)
    requires |parts| >= 1
    requires forall k :: 0 <= k < |parts| ==> sep !in parts[k]
    ensures Split(Join(parts, [sep]), sep) == parts
  {
    if |parts| > 1 {
      var tail := parts[1..];
      assert forall k :: 0 <= k < |tail| ==> sep !in tail[k] by {
        forall k | 0 <= k < |tail| ensures sep !in tail[k] { assert tail[k] == parts[k + 1]; }
      }
      var rest := Join(tail, [sep]);
      var s := Join(parts, [sep]);
      assert s == parts[0] + [sep] + rest;
      assert sep !in parts[0];
      FirstSeparator(parts[0], sep, rest);
      var i := |parts[0]|;
      assert s[..i] == parts[0];
      assert s[i + 1..] == rest;
      assert Split(s, sep) == [parts[0]] + Split(rest, sep);
      SplitJoin(tail, sep);
      assert parts == [parts[0]] + tail;
    }
  }
}
