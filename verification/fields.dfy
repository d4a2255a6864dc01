/** The field splitting of one input line: `strings.Split(line, "\t")`
    (overlap.go:73, main.go:71). */
module Fields {

  const Tab: char := '\t'

  /** Number of occurrences of `sep` in `s`. */
  function Occurrences(s: string, sep: char): nat {
    if |s| == 0 then 0
    else (if s[0] == sep then 1 else 0) + Occurrences(s[1..], sep)
  }

  /** Splits `s` around every occurrence of `sep`. Like Go's `strings.Split`
      with a one-character separator, it returns one more piece than there
      are separators, so the empty line yields the single field "". */
  function Split(s: string, sep: char): (r: seq<string>)
    ensures |r| == Occurrences(s, sep) + 1
    ensures forall k :: 0 <= k < |r| ==> sep !in r[k]
  {
    if |s| == 0 then [""]
    else
      var rest := Split(s[1..], sep);
      if s[0] == sep then [""] + rest
      else [[s[0]] + rest[0]] + rest[1..]
  }

  /** Concatenates the pieces with `sep` between neighbours (`strings.Join`). */
  function Join(parts: seq<string>, sep: char): string
    requires |parts| > 0
  {
    if |parts| == 1 then parts[0]
    else parts[0] + [sep] + Join(parts[1..], sep)
  }

  /** Splitting loses nothing: joining the pieces gives back the line. */
  lemma {:induction false} JoinSplit(s: string, sep: char)
    ensures Join(Split(s, sep), sep) == s
  {
    if |s| > 0 {
      JoinSplit(s[1..], sep);
      var rest := Split(s[1..], sep);
      if s[0] == sep {
        assert s == [sep] + s[1..];
      } else if |rest| == 1 {
        assert s == [s[0]] + s[1..];
      } else {
        assert rest == [rest[0]] + rest[1..];
        assert s == [s[0]] + s[1..];
      }
    }
  }

  /** Joining separator-free pieces and splitting again returns the pieces. */
  lemma {:induction false} SplitJoin(parts: seq<string>, sep: char)
    requires |parts| > 0
    requires forall k :: 0 <= k < |parts| ==> sep !in parts[k]
    ensures Split(Join(parts, sep), sep) == parts
    decreases |parts|, |parts[0]|
  {
    var p := parts[0];
    if |p| == 0 {
      if |parts| > 1 {
        SplitJoin(parts[1..], sep);
        assert Join(parts, sep) == [sep] + Join(parts[1..], sep);
        assert parts == [""] + parts[1..];
      }
    } else {
      var parts' := [p[1..]] + parts[1..];
      assert p == [p[0]] + p[1..];
      assert p[0] != sep by {
        assert p[0] in p;
      }
      forall k | 0 <= k < |parts'|
        ensures sep !in parts'[k]
      {
        if k == 0 {
          assert forall c :: c in p[1..] ==> c in p;
        } else {
          assert parts'[k] == parts[k];
        }
      }
      SplitJoin(parts', sep);
      assert parts'[1..] == parts[1..];
      if |parts| == 1 {
        assert Join(parts, sep) == [p[0]] + Join(parts', sep);
      } else {
        assert Join(parts, sep) == [p[0]] + Join(parts', sep);
      }
      assert Join(parts, sep)[1..] == Join(parts', sep);
      assert parts == [[p[0]] + parts'[0]] + parts'[1..];
    }
  }
}
