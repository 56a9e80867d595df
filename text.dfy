/**
  The three Python string operations the scripts' label parsing is built from:
  `str.strip()` (whitespace), `str.strip(chars)` and `str.split(sep)` with a
  one-character separator, together with `sep.join(parts)`, the inverse of split.
 */
module Text {

  /** The characters `str.strip()` removes when it is called without arguments:
      the ASCII part of Python's whitespace set, which besides space, tab, line
      feed, carriage return, vertical tab and form feed holds the four
      separators `\x1c`-`\x1f`. */
  const Whitespace: set<char> :=
    {' ', '\t', '\n', '\r', '\U{000B}', '\U{000C}', '\U{001C}', '\U{001D}', '\U{001E}', '\U{001F}'}

  predicate IsSpace(c: char) {
    c in Whitespace
  }

  /** `s.lstrip(cs)`: drop the longest prefix made of characters in `cs`. */
  function TrimStart(s: string, cs: set<char>): (r: string)
    ensures |r| <= |s|
    decreases |s|
  {
    if |s| > 0 && s[0] in cs then TrimStart(s[1..], cs) else s
  }

  /** What `TrimStart` removed is a prefix made of characters in `cs`, and
      what is left does not start with one. */
  lemma {:induction false} TrimStartRemoves(s: string, cs: set<char>)
    ensures TrimStart(s, cs) == s[|s| - |TrimStart(s, cs)|..]
    ensures TrimStart(s, cs) == [] || TrimStart(s, cs)[0] !in cs
    ensures forall k :: 0 <= k < |s| - |TrimStart(s, cs)| ==> s[k] in cs
    decreases |s|
  {
    if |s| > 0 && s[0] in cs {
      TrimStartRemoves(s[1..], cs);
    }
  }

  /** `s.rstrip(cs)`: drop the longest suffix made of characters in `cs`. */
  function TrimEnd(s: string, cs: set<char>): (r: string)
    ensures |r| <= |s|
    decreases |s|
  {
    if |s| > 0 && s[|s| - 1] in cs then TrimEnd(s[..|s| - 1], cs) else s
  }

  /** What `TrimEnd` removed is a suffix made of characters in `cs`, and what
      is left does not end with one. */
  lemma {:induction false} TrimEndRemoves(s: string, cs: set<char>)
    ensures TrimEnd(s, cs) == s[..|TrimEnd(s, cs)|]
    ensures TrimEnd(s, cs) == [] || TrimEnd(s, cs)[|TrimEnd(s, cs)| - 1] !in cs
    ensures forall k :: |TrimEnd(s, cs)| <= k < |s| ==> s[k] in cs
    decreases |s|
  {
    if |s| > 0 && s[|s| - 1] in cs {
      TrimEndRemoves(s[..|s| - 1], cs);
    }
  }

  /** `s.strip(cs)`: both ends. */
  function StripChars(s: string, cs: set<char>): (r: string)
    ensures |r| <= |s|
    ensures r == [] || (r[0] !in cs && r[|r| - 1] !in cs)
  {
    var t := TrimStart(s, cs);
    TrimStartRemoves(s, cs);
    TrimEndRemoves(t, cs);
    TrimEnd(t, cs)
  }

  /** Neither end of `s` is whitespace. */
  predicate Trimmed(s: string)
  {
    s == [] || (!IsSpace(s[0]) && !IsSpace(s[|s| - 1]))
  }

  /** `s.strip()` */
  function Strip(s: string): (r: string)
    ensures Trimmed(r)
  {
    StripChars(s, Whitespace)
  }

  /** Characterises `StripChars` independently of how it is computed: padding
      made of characters in `cs` around a core whose ends are not in `cs` is
      stripped back to exactly that core. */
  lemma {:induction false} StripCharsOfPadded(front: string, core: string, back: string, cs: set<char>)
    requires forall k :: 0 <= k < |front| ==> front[k] in cs
    requires forall k :: 0 <= k < |back| ==> back[k] in cs
    requires core == [] || (core[0] !in cs && core[|core| - 1] !in cs)
    ensures StripChars(front + core + back, cs) == core
  {
    if core == [] {
      var all := front + back;
      assert front + core + back == all + [];
      assert forall k :: 0 <= k < |all| ==> all[k] in cs by {
        forall k | 0 <= k < |all| ensures all[k] in cs {
          if k >= |front| { assert all[k] == back[k - |front|]; }
        }
      }
      TrimStartOfPadded(all, [], cs);
    } else {
      assert front + core + back == front + (core + back);
      TrimStartOfPadded(front, core + back, cs);
      TrimEndOfPadded(core, back, cs);
    }
  }

  lemma {:induction false} TrimStartOfPadded(front: string, rest: string, cs: set<char>)
    requires forall k :: 0 <= k < |front| ==> front[k] in cs
    requires rest == [] || rest[0] !in cs
    ensures TrimStart(front + rest, cs) == rest
    decreases |front|
  {
    if front != [] {
      assert (front + rest)[1..] == front[1..] + rest;
      TrimStartOfPadded(front[1..], rest, cs);
    }
  }

  lemma {:induction false} TrimEndOfPadded(rest: string, back: string, cs: set<char>)
    requires forall k :: 0 <= k < |back| ==> back[k] in cs
    requires rest == [] || rest[|rest| - 1] !in cs
    ensures TrimEnd(rest + back, cs) == rest
    decreases |back|
  {
    if back != [] {
      var last := |back| - 1;
      assert (rest + back)[..|rest + back| - 1] == rest + back[..last];
      TrimEndOfPadded(rest, back[..last], cs);
    } else {
      assert rest + back == rest;
    }
  }

  /** A string with no surrounding whitespace is its own strip. */
  lemma StripOfTrimmed(s: string)
    requires Trimmed(s)
    ensures Strip(s) == s
  {
    StripCharsOfPadded([], s, [], Whitespace);
    assert [] + s + [] == s;
  }

  /** Stripping twice is stripping once. */
  lemma StripCharsIdempotent(s: string, cs: set<char>)
    ensures StripChars(StripChars(s, cs), cs) == StripChars(s, cs)
  {
    var r := StripChars(s, cs);
    StripCharsOfPadded([], r, [], cs);
    assert [] + r + [] == r;
  }

  /** Number of occurrences of `c` in `s`. */
  function Count(s: string, c: char): nat
  {
    if s == [] then 0 else (if s[0] == c then 1 else 0) + Count(s[1..], c)
  }

  /** `s.split(sep)`: the maximal `sep`-free segments between separators, in order. */
  function Split(s: string, sep: char): (parts: seq<string>)
    ensures |parts| == Count(s, sep) + 1
    ensures forall k :: 0 <= k < |parts| ==> sep !in parts[k]
    decreases |s|
  {
    if s == [] then [""]
    else if s[0] == sep then [""] + Split(s[1..], sep)
    else
      var rest := Split(s[1..], sep);
      [[s[0]] + rest[0]] + rest[1..]
  }

  /** `sep.join(parts)` */
  function Join(parts: seq<string>, sep: char): string
  {
    if parts == [] then ""
    else if |parts| == 1 then parts[0]
    else parts[0] + [sep] + Join(parts[1..], sep)
  }

  /** Joining more than one part: the join of all but the last, the
      separator, and the last part. */
  lemma {:induction false} JoinSnoc(parts: seq<string>, sep: char)
    requires |parts| > 1
    ensures Join(parts, sep) == Join(parts[..|parts| - 1], sep) + [sep] + parts[|parts| - 1]
  {
    var n := |parts| - 1;
    if |parts| > 2 {
      JoinSnoc(parts[1..], sep);
      assert parts[1..][..n - 1] == parts[..n][1..];
    }
  }

  /** A join starts with the first part's first character and ends with the
      last part's last character, whatever the parts in between. */
  lemma JoinEnds(parts: seq<string>, sep: char)
    requires |parts| > 0 && parts[0] != [] && parts[|parts| - 1] != []
    ensures Join(parts, sep) != []
    ensures Join(parts, sep)[0] == parts[0][0]
    ensures Join(parts, sep)[|Join(parts, sep)| - 1] == parts[|parts| - 1][|parts[|parts| - 1]| - 1]
  {
    if |parts| > 1 {
      JoinSnoc(parts, sep);
    }
  }

  /** Splitting and joining again gives the original string back. */
  lemma {:induction false} JoinSplit(s: string, sep: char)
    ensures Join(Split(s, sep), sep) == s
    decreases |s|
  {
    if s == [] {
    } else if s[0] == sep {
      JoinSplit(s[1..], sep);
      assert s == [sep] + s[1..];
    } else {
      var rest := Split(s[1..], sep);
      JoinSplit(s[1..], sep);
      var parts := Split(s, sep);
      assert parts[1..] == rest[1..];
      if |rest| == 1 {
        assert s == [s[0]] + rest[0];
      } else {
        assert Join(rest, sep) == rest[0] + [sep] + Join(rest[1..], sep);
        assert s == [s[0]] + s[1..];
      }
    }
  }

  /** Joining separator-free parts and splitting again gives the parts back. */
  lemma {:induction false} SplitJoin(parts: seq<string>, sep: char)
    requires |parts| > 0
    requires forall k :: 0 <= k < |parts| ==> sep !in parts[k]
    ensures Split(Join(parts, sep), sep) == parts
  {
    if |parts| == 1 {
      SplitOfSeparatorFree(parts[0], [], sep);
      assert parts[0] + [] == parts[0];
    } else {
      SplitJoin(parts[1..], sep);
      SplitOfSeparatorFree(parts[0], [sep] + Join(parts[1..], sep), sep);
      assert parts[0] + [sep] + Join(parts[1..], sep) == parts[0] + ([sep] + Join(parts[1..], sep));
      assert parts == [parts[0]] + parts[1..];
    }
  }

  /** A separator-free `head` becomes the first segment: `head` followed by the
      end of the string or by a separator. */
  lemma {:induction false} SplitOfSeparatorFree(head: string, tail: string, sep: char)
    requires sep !in head
    requires tail == [] || tail[0] == sep
    ensures tail == [] ==> Split(head + tail, sep) == [head]
    ensures tail != [] ==> Split(head + tail, sep) == [head] + Split(tail[1..], sep)
    decreases |head|
  {
    if head == [] {
      assert head + tail == tail;
    } else {
      assert (head + tail)[1..] == head[1..] + tail;
      SplitOfSeparatorFree(head[1..], tail, sep);
      assert head == [head[0]] + head[1..];
    }
  }
}
