/**
 * Subcommand names derived from action class names: `underscore` turns `NewVersion`
 * into `new_version`, and `UniventionAppAction.get_action_name` into `new-version`.
 */
module ActionNames {
  import opened Common

  /** The character classes `[a-z]` and `[A-Z]` of the substitution's pattern. */
  predicate IsAsciiLower(c: char) {
    'a' <= c <= 'z'
  }

  predicate IsAsciiUpper(c: char) {
    'A' <= c <= 'Z'
  }

  /** A place where `([a-z])([A-Z])` matches: a lower-case letter followed by an upper-case one. */
  predicate CamelBoundary(s: string, i: int) {
    0 <= i && i + 1 < |s| && IsAsciiLower(s[i]) && IsAsciiUpper(s[i + 1])
  }

  /** `s` with every `c` removed. */
  function Without(s: string, c: char): (r: string)
    ensures c !in r
  {
    if s == [] then [] else (if s[0] == c then [] else [s[0]]) + Without(s[1..], c)
  }

  /**
   * `re.sub('([a-z])([A-Z])', r'\1_\2', s)`. Two matches can never overlap (a match ends
   * in an upper-case letter, which cannot start another), so the substitution puts `_`
   * into every camel-case boundary of `s`.
   */
  function SplitCamel(s: string): (r: string)
    ensures |r| >= |s|
    ensures |s| > 0 ==> r[0] == s[0]
  {
    if |s| < 2 then s
    else if IsAsciiLower(s[0]) && IsAsciiUpper(s[1]) then [s[0]] + ['_'] + SplitCamel(s[1..])
    else [s[0]] + SplitCamel(s[1..])
  }

  /**
   * The substitution only inserts `_`: removing every `_` from its result gives the input
   * with every `_` removed. And it leaves no camel-case boundary behind.
   */
  lemma {:induction false} SplitCamelSpec(s: string)
    ensures Without(SplitCamel(s), '_') == Without(s, '_')
    ensures forall i :: !CamelBoundary(SplitCamel(s), i)
  {
    if |s| >= 2 {
      var t := SplitCamel(s[1..]);
      SplitCamelSpec(s[1..]);
      var r := SplitCamel(s);
      if IsAsciiLower(s[0]) && IsAsciiUpper(s[1]) {
        assert r == [s[0]] + (['_'] + t);
        assert r[1..] == ['_'] + t && (['_'] + t)[1..] == t;
        forall i ensures !CamelBoundary(r, i) {
          if i > 1 { assert CamelBoundary(r, i) ==> CamelBoundary(t, i - 2); }
        }
      } else {
        assert r == [s[0]] + t;
        assert r[1..] == t;
        forall i ensures !CamelBoundary(r, i) {
          if i > 0 { assert CamelBoundary(r, i) ==> CamelBoundary(t, i - 1); }
        }
      }
    }
  }

  /**
   * The substitution, character by character: each character of `s`, followed by `_`
   * exactly where a camel-case boundary starts at it.
   */
  function BoundaryPieces(s: string): (pieces: seq<string>)
    ensures |pieces| == |s|
  {
    seq(|s|, i requires 0 <= i < |s| => [s[i]] + (if CamelBoundary(s, i) then "_" else ""))
  }

  /** The substitution puts one `_` into each camel-case boundary of `s`, and changes nothing else. */
  lemma {:induction false} SplitCamelPointwise(s: string)
    ensures SplitCamel(s) == Concat(BoundaryPieces(s))
  {
    var p := BoundaryPieces(s);
    if s == [] {
      assert p == [];
    } else {
      var q := BoundaryPieces(s[1..]);
      forall j | 0 <= j < |q| ensures p[1..][j] == q[j] {
        assert CamelBoundary(s, j + 1) == CamelBoundary(s[1..], j);
      }
      assert p[1..] == q;
      SplitCamelPointwise(s[1..]);
      if |s| == 1 {
        assert !CamelBoundary(s, 0);
        assert p[0] == [s[0]];
        assert q == [];
      } else if CamelBoundary(s, 0) {
        assert p[0] == [s[0]] + ['_'];
      } else {
        assert p[0] == [s[0]];
      }
    }
  }

  /** `c.lower()` for ASCII letters. */
  function LowerChar(c: char): (r: char)
    ensures !IsAsciiUpper(r)
    ensures IsAsciiUpper(c) ==> IsAsciiLower(r)
    ensures !IsAsciiUpper(c) ==> r == c
  {
    if IsAsciiUpper(c) then (c as int - 'A' as int + 'a' as int) as char else c
  }

  /** `s.lower()` for ASCII text. */
  function Lower(s: string): (r: string)
    ensures |r| == |s|
    ensures forall i :: 0 <= i < |s| ==> r[i] == LowerChar(s[i])
  {
    seq(|s|, i requires 0 <= i < |s| => LowerChar(s[i]))
  }

  /** `s.replace(from, to)` for single characters. */
  function Replace(s: string, from: char, to: char): (r: string)
    ensures |r| == |s|
    ensures forall i :: 0 <= i < |s| ==> r[i] == if s[i] == from then to else s[i]
  {
    seq(|s|, i requires 0 <= i < |s| => if s[i] == from then to else s[i])
  }

  /** `underscore(value)`: None for None or the empty string (both falsy). */
  function Underscore(value: Option<string>): (r: Option<string>)
    ensures r.None? <==> value.None? || value.value == ""
    ensures r.Some? ==> |r.value| >= |value.value|
    ensures r.Some? ==> forall i :: 0 <= i < |r.value| ==> !IsAsciiUpper(r.value[i])
  {
    if value.None? || value.value == "" then None
    else
      Some(Lower(SplitCamel(value.value)))
  }


  /** `get_action_name`: the class name through `underscore`, then every `_` replaced by `-`. */
  function ActionName(className: string): (r: string)
    requires className != ""
    ensures '_' !in r
    ensures forall i :: 0 <= i < |r| ==> !IsAsciiUpper(r[i])
    ensures |r| >= |className|
  {
    Replace(Underscore(Some(className)).value, '_', '-')
  }

  /** A capitalised word such as `New` or `Version`: an upper-case letter, then lower-case ones. */
  predicate CapitalizedWord(w: string) {
    |w| >= 2 && IsAsciiUpper(w[0]) && forall i :: 1 <= i < |w| ==> IsAsciiLower(w[i])
  }

  function Concat(words: seq<string>): (r: string)
    ensures |words| > 0 ==> |r| >= |words[0]|
  {
    if words == [] then "" else words[0] + Concat(words[1..])
  }

  /** The words in lower case, joined by `-`. */
  function DashJoinLower(words: seq<string>): string
    requires |words| > 0
  {
    if |words| == 1 then Lower(words[0]) else Lower(words[0]) + "-" + DashJoinLower(words[1..])
  }

  /**
   * A class name made of capitalised words becomes those words in lower case joined by
   * `-`: `NewVersion` is the subcommand `new-version`.
   */
  lemma {:induction false} ActionNameOfWords(words: seq<string>)
    requires |words| > 0 && forall i :: 0 <= i < |words| ==> CapitalizedWord(words[i])
    ensures var name := Concat(words); name != "" && ActionName(name) == DashJoinLower(words)
  {
    var w := words[0];
    assert CapitalizedWord(w);
    if |words| == 1 {
      assert words[1..] == [];
      assert Concat(words) == w + [] == w;
      ActionNameOfWord(w);
      assert DashJoinLower(words) == Lower(w);
    } else {
      assert CapitalizedWord(words[1..][0]);
      ConcatStart(words[1..]);
      assert Concat(words) == w + Concat(words[1..]);
      ActionNameOfWords(words[1..]);
      ActionNameAppend(w, Concat(words[1..]));
    }
  }

  lemma ActionNameOfWord(w: string)
    requires CapitalizedWord(w)
    ensures ActionName(w) == Lower(w)
  {
    NoBoundaryInWord(w);
    SplitCamelNoBoundary(w, []);
    assert w + [] == w;
    LowerWordHasNoUnderscore(w);
  }

  /** A capitalised word in front of a capitalised name adds the word and a `-` to its action name. */
  lemma ActionNameAppend(w: string, rest: string)
    requires CapitalizedWord(w)
    requires rest != "" && IsAsciiUpper(rest[0])
    ensures ActionName(w + rest) == Lower(w) + "-" + ActionName(rest)
  {
    NoBoundaryInWord(w);
    SplitCamelNoBoundary(w, rest);
    var split := SplitCamel(rest);
    assert SplitCamel(w + rest) == w + (['_'] + split);
    LowerAroundUnderscore(w, split);
    ReplaceUnderscore(Lower(w), Lower(split));
    LowerWordHasNoUnderscore(w);
  }

  lemma LowerAroundUnderscore(a: string, b: string)
    ensures Lower(a + (['_'] + b)) == Lower(a) + (['_'] + Lower(b))
  {
    LowerAppend(a, ['_'] + b);
    LowerAppend(['_'], b);
  }

  lemma ReplaceUnderscore(a: string, b: string)
    ensures Replace(a + (['_'] + b), '_', '-') == Replace(a, '_', '-') + (['-'] + Replace(b, '_', '-'))
  {
    ReplaceAppend(a, ['_'] + b, '_', '-');
    ReplaceAppend(['_'], b, '_', '-');
  }

  /** A concatenation of capitalised words starts with the first word's capital. */
  lemma ConcatStart(words: seq<string>)
    requires |words| > 0 && CapitalizedWord(words[0])
    ensures |Concat(words)| > 0 && IsAsciiUpper(Concat(words)[0])
  {
    assert Concat(words) == words[0] + Concat(words[1..]);
  }

  lemma NoBoundaryInWord(w: string)
    requires CapitalizedWord(w)
    ensures forall i :: !CamelBoundary(w, i)
  {
    forall i ensures !CamelBoundary(w, i) {
      if 0 <= i && i + 1 < |w| { assert IsAsciiLower(w[i + 1]); }
    }
  }

  lemma LowerWordHasNoUnderscore(w: string)
    requires CapitalizedWord(w)
    ensures Replace(Lower(w), '_', '-') == Lower(w)
  {
  }

  /**
   * The substitution leaves text without camel-case boundaries unchanged, and puts one `_`
   * where such text ending in a lower-case letter meets text starting with an upper-case one.
   */
  lemma {:induction false} SplitCamelNoBoundary(x: string, rest: string)
    requires |x| > 0 && forall i :: !CamelBoundary(x, i)
    requires rest != [] ==> IsAsciiLower(x[|x| - 1]) && IsAsciiUpper(rest[0])
    ensures SplitCamel(x + rest) == x + (if rest == [] then [] else ['_'] + SplitCamel(rest))
  {
    if |x| == 1 {
      SplitCamelLetter(x, rest);
    } else {
      forall i ensures !CamelBoundary(x[1..], i) {
        assert CamelBoundary(x[1..], i) ==> CamelBoundary(x, i + 1);
      }
      SplitCamelNoBoundary(x[1..], rest);
      SplitCamelKeep(x, rest, if rest == [] then [] else ['_'] + SplitCamel(rest));
    }
  }

  /** A single letter in front of text that starts with a capital after a lower-case letter gets a `_`. */
  lemma SplitCamelLetter(x: string, rest: string)
    requires |x| == 1
    requires rest != [] ==> IsAsciiLower(x[0]) && IsAsciiUpper(rest[0])
    ensures SplitCamel(x + rest) == x + (if rest == [] then [] else ['_'] + SplitCamel(rest))
  {
    var s := x + rest;
    if rest != [] {
      assert s[0] == x[0] && s[1] == rest[0];
      assert s[1..] == rest;
      assert SplitCamel(s) == [s[0]] + ['_'] + SplitCamel(rest);
      assert [s[0]] + ['_'] + SplitCamel(rest) == x + (['_'] + SplitCamel(rest));
    } else {
      assert s == x;
    }
  }

  /** Without a boundary at the front, the substitution keeps the first character and goes on after it. */
  lemma SplitCamelKeep(x: string, rest: string, tail: string)
    requires |x| >= 2 && !CamelBoundary(x, 0)
    requires SplitCamel(x[1..] + rest) == x[1..] + tail
    ensures SplitCamel(x + rest) == x + tail
  {
    var s := x + rest;
    assert s[0] == x[0] && s[1] == x[1];
    assert s[1..] == x[1..] + rest;
    assert SplitCamel(s) == [x[0]] + (x[1..] + tail);
    assert [x[0]] + (x[1..] + tail) == x + tail;
  }

  lemma LowerAppend(a: string, b: string)
    ensures Lower(a + b) == Lower(a) + Lower(b)
  {
  }

  lemma ReplaceAppend(a: string, b: string, from: char, to: char)
    ensures Replace(a + b, from, to) == Replace(a, from, to) + Replace(b, from, to)
  {
  }

  /** The subcommand of the `NewVersion` action. */
  lemma NewVersionName()
    ensures ActionName("NewVersion") == "new-version"
  {
    var words := ["New", "Version"];
    assert Concat(words) == "NewVersion";
    assert Lower("New") == "new" && Lower("Version") == "version";
    assert DashJoinLower(words) == "new-version";
    ActionNameOfWords(words);
  }

  /** The subcommand of the `RemoveVersion` action. */
  lemma RemoveVersionName()
    ensures ActionName("RemoveVersion") == "remove-version"
  {
    var words := ["Remove", "Version"];
    assert Concat(words) == "RemoveVersion";
    assert Lower("Remove") == "remove" && Lower("Version") == "version";
    assert DashJoinLower(words) == "remove-version";
    ActionNameOfWords(words);
  }
}
