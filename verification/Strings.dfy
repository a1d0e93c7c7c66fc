/** `strings.Contains`, and searching and splitting with a one-character separator. */
module Strings {
  /** The position of the first such character, or the length. */
  function IndexOf(s: string, c: char): (i: nat)
    ensures i <= |s| && (forall j :: 0 <= j < i ==> s[j] != c) && (i < |s| ==> s[i] == c)
  {
    if s == [] || s[0] == c then 0 else 1 + IndexOf(s[1..], c)
  }

  predicate StartsAt(line: string, part: string, i: nat) { i + |part| <= |line| && line[i..i + |part|] == part }

  predicate Contains(line: string, part: string) { exists i :: 0 <= i <= |line| && StartsAt(line, part, i) }

  function Split(s: string, sep: char): (r: seq<string>)
    ensures r != []
  {
    if s == [] then [""]
    else
      var rest := Split(s[1..], sep);
      if s[0] == sep then [""] + rest else [[s[0]] + rest[0]] + rest[1..]
  }

  function Join(parts: seq<string>, sep: char): string {
    if parts == [] then "" else if |parts| == 1 then parts[0] else parts[0] + [sep] + Join(parts[1..], sep)
  }

  /** Joining the parts gives the string back, and no part holds the separator. */
  lemma {:induction false} SplitExact(s: string, sep: char)
    ensures Join(Split(s, sep), sep) == s
    ensures forall i :: 0 <= i < |Split(s, sep)| ==> sep !in Split(s, sep)[i]
  {
    if s != [] {
      SplitExact(s[1..], sep);
      var parts, rest := Split(s, sep), Split(s[1..], sep);
      if s[0] == sep {
        assert parts[1..] == rest;
        assert Join(parts, sep) == "" + [sep] + Join(rest, sep);
      } else {
        assert parts[1..] == rest[1..];
        if |rest| > 1 { assert Join(parts, sep) == [s[0]] + rest[0] + [sep] + Join(rest[1..], sep); }
      }
      assert s == [s[0]] + s[1..];
    }
  }

  lemma {:induction false} SplitAtSeparator(a: string, s: string, sep: char)
    requires sep !in a
    ensures Split(a, sep) == [a] && Split(a + [sep] + s, sep) == [a] + Split(s, sep)
  {
    if a == [] {
      assert a + [sep] + s == [sep] + s;
    } else {
      SplitAtSeparator(a[1..], s, sep);
      assert (a + [sep] + s)[1..] == a[1..] + [sep] + s;
      assert a == [a[0]] + a[1..];
    }
  }
}
