/**
 * Name filtering for the Wikidata name lists (src/wikidata_names.py).
 *
 * `NamePattern` is the acceptance test: the regular expression `[A-Z][a-z]+` matched at the
 * start of the string, and the match must cover the whole string.  `Clean` splits every name
 * on each hyphen, flattens the parts in order and keeps the parts that pass `NamePattern`.
 */
module WikidataNames {

  import opened Common

  predicate IsUpper(c: char) { 'A' <= c <= 'Z' }

  predicate IsLower(c: char) { 'a' <= c <= 'z' }

  const Hyphen: char := '-'

  // ---------------------------------------------------------------------------------------------
  // name_pattern (lines 21-25)

  /** Length of the longest run of lower-case ASCII letters at the start of `s`. */
  function LowerRun(s: string): (n: nat)
    ensures n <= |s|
    ensures forall i :: 0 <= i < n ==> IsLower(s[i])
    ensures n < |s| ==> !IsLower(s[n])
  {
    if |s| == 0 || !IsLower(s[0]) then 0 else 1 + LowerRun(s[1..])
  }

  /**
   * The match of `[A-Z][a-z]+` anchored at the start of `s`, as its length: one capital, then
   * the greedy (longest) run of lower-case letters, which must not be empty.
   */
  function MatchLength(s: string): (r: Option<nat>)
    ensures r.Some? <==> 2 <= |s| && IsUpper(s[0]) && IsLower(s[1])
    ensures r.Some? ==> 2 <= r.value <= |s| && IsUpper(s[0])
    ensures r.Some? ==> forall i :: 1 <= i < r.value ==> IsLower(s[i])
    ensures r.Some? && r.value < |s| ==> !IsLower(s[r.value])
  {
    if 1 <= |s| && IsUpper(s[0]) then
      var n := LowerRun(s[1..]);
      if 1 <= n then Some(1 + n) else None
    else None
  }

  /** The match exists and the matched text is the whole name. */
  predicate NamePattern(s: string) {
    match MatchLength(s)
    case None => false
    case Some(len) => s[..len] == s
  }

  /** The accepted language: one ASCII capital followed by at least one ASCII lower-case letter. */
  lemma NamePatternIff(s: string)
    ensures NamePattern(s) <==>
      2 <= |s| && IsUpper(s[0]) && forall i :: 1 <= i < |s| ==> IsLower(s[i])
  {
    var m := MatchLength(s);
    if 2 <= |s| && IsUpper(s[0]) && forall i :: 1 <= i < |s| ==> IsLower(s[i]) {
      assert IsLower(s[1]);
      assert m.value == |s|;
    }
    if NamePattern(s) {
      assert |s[..m.value]| == |s|;
    }
  }

  /** Any character that is not an ASCII letter (a digit, a space, a hyphen, an umlaut) rejects the name. */
  lemma NotALetterRejects(s: string, i: nat)
    requires i < |s| && !IsUpper(s[i]) && !IsLower(s[i])
    ensures !NamePattern(s)
  {
    NamePatternIff(s);
  }

  /** A capital anywhere but at the start rejects the name. */
  lemma LaterCapitalRejects(s: string, i: nat)
    requires 1 <= i < |s| && IsUpper(s[i])
    ensures !NamePattern(s)
  {
    NamePatternIff(s);
  }

  lemma NamePatternExamples()
    ensures NamePattern("Hans")
    ensures NamePattern("Ab")
    ensures !NamePattern("")
    ensures !NamePattern("A")
    ensures !NamePattern("hans")
  {
    NamePatternIff("Hans");
    NamePatternIff("Ab");
    NamePatternIff("A");
    NamePatternIff("hans");
  }

  lemma NamePatternRejections()
    ensures !NamePattern("Müller")
    ensures !NamePattern("Hans-Peter")
    ensures !NamePattern("Hans Peter")
    ensures !NamePattern("R2d")
    ensures !NamePattern("McDonald")
  {
    NotALetterRejects("Müller", 1);
    NotALetterRejects("Hans-Peter", 4);
    NotALetterRejects("Hans Peter", 4);
    NotALetterRejects("R2d", 1);
    LaterCapitalRejects("McDonald", 2);
  }

  /** An accepted name contains no hyphen, so splitting it on hyphens leaves it whole. */
  lemma NamePatternHasNoHyphen(s: string)
    requires NamePattern(s)
    ensures Hyphen !in s
  {
    NamePatternIff(s);
  }

  // ---------------------------------------------------------------------------------------------
  // str.split on a single-character separator (line 32)

  /**
   * `s.split(sep)`: the maximal separator-free pieces between separators, empty pieces
   * included, so a string with `c` separators has `c + 1` parts.
   */
  function Split(s: string, sep: char): (parts: seq<string>)
    ensures |parts| >= 1
    ensures forall k :: 0 <= k < |parts| ==> sep !in parts[k]
    decreases |s|
  {
    if |s| == 0 then [""]
    else
      var rest := Split(s[1..], sep);
      if s[0] == sep then [""] + rest
      else [[s[0]] + rest[0]] + rest[1..]
  }

  /** `sep.join(parts)`. */
  function Join(parts: seq<string>, sep: char): (s: string)
    requires |parts| >= 1
  {
    if |parts| == 1 then parts[0] else parts[0] + [sep] + Join(parts[1..], sep)
  }

  /** Number of occurrences of `c` in `s`. */
  function Occurrences(s: string, c: char): nat
  {
    if |s| == 0 then 0 else (if s[0] == c then 1 else 0) + Occurrences(s[1..], c)
  }

  /** Joining the parts with the separator gives back the original string. */
  lemma {:induction false} JoinSplit(s: string, sep: char)
    ensures Join(Split(s, sep), sep) == s
    decreases |s|
  {
    if |s| > 0 {
      var rest := Split(s[1..], sep);
      JoinSplit(s[1..], sep);
      if s[0] == sep {
        assert Split(s, sep)[1..] == rest;
      } else {
        var parts := Split(s, sep);
        if |rest| == 1 {
          assert parts == [[s[0]] + rest[0]];
        } else {
          assert parts[1..] == rest[1..];
          assert Join(rest, sep) == rest[0] + [sep] + Join(rest[1..], sep);
        }
      }
    }
  }

  /** A string without the separator is a single part. */
  lemma {:induction false} SplitWithoutSeparator(s: string, sep: char)
    requires sep !in s
    ensures Split(s, sep) == [s]
    decreases |s|
  {
    if |s| > 0 {
      SplitWithoutSeparator(s[1..], sep);
      assert [s[0]] + s[1..] == s;
    }
  }

  /** Splitting `head`, the separator and `tail` yields `head` as its first part. */
  lemma {:induction false} SplitAfterPart(head: string, tail: string, sep: char)
    requires sep !in head
    ensures Split(head + [sep] + tail, sep) == [head] + Split(tail, sep)
    decreases |head|
  {
    if |head| == 0 {
      assert head + [sep] + tail == [sep] + tail;
      assert ([sep] + tail)[1..] == tail;
    } else {
      var s := head + [sep] + tail;
      assert s[0] == head[0];
      assert s[1..] == head[1..] + [sep] + tail;
      SplitAfterPart(head[1..], tail, sep);
      assert [head[0]] + head[1..] == head;
    }
  }

  /** Splitting separator-free parts joined by the separator gives back the parts. */
  lemma {:induction false} SplitJoin(parts: seq<string>, sep: char)
    requires |parts| >= 1
    requires forall k :: 0 <= k < |parts| ==> sep !in parts[k]
    ensures Split(Join(parts, sep), sep) == parts
    decreases |parts|
  {
    if |parts| == 1 {
      SplitWithoutSeparator(parts[0], sep);
    } else {
      SplitJoin(parts[1..], sep);
      SplitAfterPart(parts[0], Join(parts[1..], sep), sep);
      assert [parts[0]] + parts[1..] == parts;
    }
  }

  /** A string with `c` separators splits into `c + 1` parts. */
  lemma {:induction false} SplitCount(s: string, sep: char)
    ensures |Split(s, sep)| == Occurrences(s, sep) + 1
    decreases |s|
  {
    if |s| > 0 {
      SplitCount(s[1..], sep);
    }
  }

  // ---------------------------------------------------------------------------------------------
  // clean (lines 27-35)

  /** `names_unfolded`: the hyphen-separated parts of every name, in order. */
  function Unfold(names: seq<string>): (parts: seq<string>)
    ensures forall k :: 0 <= k < |parts| ==> Hyphen !in parts[k]
  {
    if |names| == 0 then []
    else Unfold(names[..|names| - 1]) + Split(names[|names| - 1], Hyphen)
  }

  /** The comprehension of line 35: the parts that pass `NamePattern`, in order. */
  function FilterNames(xs: seq<string>): (kept: seq<string>)
    ensures |kept| <= |xs|
    ensures forall k :: 0 <= k < |kept| ==> NamePattern(kept[k])
  {
    if |xs| == 0 then []
    else (if NamePattern(xs[0]) then [xs[0]] else []) + FilterNames(xs[1..])
  }

  /** What `clean(names)` returns. */
  function Cleaned(names: seq<string>): seq<string>
  {
    FilterNames(Unfold(names))
  }

  /**
   * The loop of lines 29-34 builds the unfolded list with `append`/`extend`; line 35 filters it.
   */
  method Clean(names: seq<string>) returns (cleaned: seq<string>)
    ensures cleaned == Cleaned(names)
    ensures forall k :: 0 <= k < |cleaned| ==> NamePattern(cleaned[k])
  {
    var unfolded: seq<string> := [];
    for i := 0 to |names|
      invariant unfolded == Unfold(names[..i])
    {
      var name := names[i];
      if Hyphen in name {
        unfolded := unfolded + Split(name, Hyphen);
      } else {
        SplitWithoutSeparator(name, Hyphen);
        unfolded := unfolded + [name];
      }
      assert names[..i + 1][..i] == names[..i];
    }
    assert names[..|names|] == names;
    cleaned := FilterNames(unfolded);
  }

  // ---------------------------------------------------------------------------------------------
  // Properties of clean

  lemma {:induction false} FilterNamesAppend(a: seq<string>, b: seq<string>)
    ensures FilterNames(a + b) == FilterNames(a) + FilterNames(b)
    decreases |a|
  {
    if |a| > 0 {
      assert (a + b)[1..] == a[1..] + b;
      FilterNamesAppend(a[1..], b);
    } else {
      assert a + b == b;
    }
  }

  lemma {:induction false} UnfoldAppend(a: seq<string>, b: seq<string>)
    ensures Unfold(a + b) == Unfold(a) + Unfold(b)
    decreases |b|
  {
    if |b| == 0 {
      assert a + b == a;
    } else {
      var b' := b[..|b| - 1];
      assert (a + b)[..|a + b| - 1] == a + b';
      UnfoldAppend(a, b');
    }
  }

  /** Order is kept: cleaning a concatenation is the concatenation of the cleaned halves. */
  lemma CleanedAppend(a: seq<string>, b: seq<string>)
    ensures Cleaned(a + b) == Cleaned(a) + Cleaned(b)
  {
    UnfoldAppend(a, b);
    FilterNamesAppend(Unfold(a), Unfold(b));
  }

  /** One name is replaced by its accepted parts, in order. */
  lemma CleanedSingle(name: string)
    ensures Cleaned([name]) == FilterNames(Split(name, Hyphen))
  {
    assert [name][..0] == [];
    assert Unfold([name]) == [] + Split(name, Hyphen) == Split(name, Hyphen);
  }

  /** A name without a hyphen is kept unchanged exactly when it passes `NamePattern`. */
  lemma CleanedPlainName(name: string)
    requires Hyphen !in name
    ensures Cleaned([name]) == if NamePattern(name) then [name] else []
  {
    CleanedSingle(name);
    SplitWithoutSeparator(name, Hyphen);
  }

  /** An output part is exactly a hyphen-separated part of some input that passes `NamePattern`. */
  lemma CleanedMembers(names: seq<string>, x: string)
    ensures x in Cleaned(names) <==> NamePattern(x) && x in Unfold(names)
  {
    FilterNamesMembers(Unfold(names), x);
  }

  lemma {:induction false} FilterNamesMembers(xs: seq<string>, x: string)
    ensures x in FilterNames(xs) <==> x in xs && NamePattern(x)
    decreases |xs|
  {
    if |xs| > 0 {
      FilterNamesMembers(xs[1..], x);
      assert xs == [xs[0]] + xs[1..];
    }
  }

  /** Empty parts, such as those of "A--B" or "Hans-", are never kept. */
  lemma CleanedDropsEmptyParts(names: seq<string>)
    ensures "" !in Cleaned(names)
  {
    if "" in Cleaned(names) {
      NamePatternIff("");
    }
  }

  lemma {:induction false} UnfoldPlainNames(xs: seq<string>)
    requires forall k :: 0 <= k < |xs| ==> Hyphen !in xs[k]
    ensures Unfold(xs) == xs
    decreases |xs|
  {
    if |xs| > 0 {
      UnfoldPlainNames(xs[..|xs| - 1]);
      SplitWithoutSeparator(xs[|xs| - 1], Hyphen);
      assert xs[..|xs| - 1] + [xs[|xs| - 1]] == xs;
    }
  }

  lemma {:induction false} FilterNamesKeepsAccepted(xs: seq<string>)
    requires forall k :: 0 <= k < |xs| ==> NamePattern(xs[k])
    ensures FilterNames(xs) == xs
    decreases |xs|
  {
    if |xs| > 0 {
      FilterNamesKeepsAccepted(xs[1..]);
      assert [xs[0]] + xs[1..] == xs;
    }
  }

  /** Cleaning a cleaned list changes nothing. */
  lemma CleanedIdempotent(names: seq<string>)
    ensures Cleaned(Cleaned(names)) == Cleaned(names)
  {
    var c := Cleaned(names);
    forall k | 0 <= k < |c| ensures Hyphen !in c[k] {
      NamePatternHasNoHyphen(c[k]);
    }
    UnfoldPlainNames(c);
    FilterNamesKeepsAccepted(c);
  }

  /** Total number of hyphen-separated parts of the names. */
  function PartCount(names: seq<string>): nat
  {
    if |names| == 0 then 0
    else PartCount(names[..|names| - 1]) + Occurrences(names[|names| - 1], Hyphen) + 1
  }

  /** The output is no longer than the number of hyphen-separated parts. */
  lemma {:induction false} CleanedLength(names: seq<string>)
    ensures |Cleaned(names)| <= |Unfold(names)| == PartCount(names)
    decreases |names|
  {
    if |names| > 0 {
      CleanedLength(names[..|names| - 1]);
      SplitCount(names[|names| - 1], Hyphen);
    }
  }

  /** A double name such as "Hans-Peter" becomes its two halves, in order. */
  lemma CleanedDoubleName(first: string, second: string)
    requires NamePattern(first) && NamePattern(second)
    ensures Cleaned([first + [Hyphen] + second]) == [first, second]
  {
    NamePatternHasNoHyphen(first);
    NamePatternHasNoHyphen(second);
    CleanedSingle(first + [Hyphen] + second);
    SplitAfterPart(first, second, Hyphen);
    SplitWithoutSeparator(second, Hyphen);
    assert [first, second][1..] == [second];
  }

  lemma SplitDoubleHyphen(a: string, b: string)
    requires Hyphen !in a && Hyphen !in b
    ensures Split(a + [Hyphen, Hyphen] + b, Hyphen) == [a, "", b]
  {
    var t := [Hyphen] + b;
    assert a + [Hyphen, Hyphen] + b == a + [Hyphen] + t;
    assert t == "" + [Hyphen] + b;
    SplitAfterPart(a, t, Hyphen);
    SplitAfterPart("", b, Hyphen);
    SplitWithoutSeparator(b, Hyphen);
  }

  /** The empty part between two hyphens, as in "A--B", is dropped. */
  lemma CleanedDoubleHyphen(a: string, b: string)
    requires Hyphen !in a && Hyphen !in b
    ensures Cleaned([a + [Hyphen, Hyphen] + b]) == Cleaned([a]) + Cleaned([b])
  {
    SplitDoubleHyphen(a, b);
    CleanedSingle(a + [Hyphen, Hyphen] + b);
    SplitWithoutSeparator(a, Hyphen);
    SplitWithoutSeparator(b, Hyphen);
    CleanedSingle(a);
    CleanedSingle(b);
    assert !NamePattern("");
    assert [a, "", b][1..] == ["", b];
    assert ["", b][1..] == [b];
    assert FilterNames(["", b]) == FilterNames([b]);
    assert [a][1..] == [];
  }

  /** The empty part after a trailing hyphen, as in "Hans-", is dropped. */
  lemma CleanedTrailingHyphen(a: string)
    requires Hyphen !in a
    ensures Cleaned([a + [Hyphen]]) == Cleaned([a])
  {
    NamePatternIff("");
    assert a + [Hyphen] == a + [Hyphen] + "";
    CleanedSingle(a + [Hyphen]);
    SplitAfterPart(a, "", Hyphen);
    CleanedPlainName(a);
    assert [a, ""][1..] == [""];
  }

  lemma CleanedExampleDoubleName()
    ensures Cleaned(["Hans-Peter"]) == ["Hans", "Peter"]
  {
    NamePatternIff("Hans");
    NamePatternIff("Peter");
    assert "Hans-Peter" == "Hans" + [Hyphen] + "Peter";
    CleanedDoubleName("Hans", "Peter");
  }

  lemma CleanedExampleDoubleHyphen()
    ensures Cleaned(["A--B"]) == []
  {
    NamePatternIff("A");
    NamePatternIff("B");
    assert "A--B" == "A" + [Hyphen, Hyphen] + "B";
    CleanedDoubleHyphen("A", "B");
    CleanedPlainName("A");
    CleanedPlainName("B");
  }

  lemma CleanedExampleTrailingHyphen()
    ensures Cleaned(["Hans-"]) == ["Hans"]
  {
    NamePatternIff("Hans");
    assert "Hans-" == "Hans" + [Hyphen];
    CleanedTrailingHyphen("Hans");
    CleanedPlainName("Hans");
  }
}
