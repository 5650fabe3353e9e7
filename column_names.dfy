/**
  The SQL-safe column-name sanitiser of the backend (`clean_column_name`).

  A name is cleaned in four steps: every character that is not a letter or a
  digit becomes `_`; the result is split at `_`, the empty parts are dropped
  and the rest joined again with `_` (so runs of `_` collapse and `_` at
  either end disappears); a name whose first character is a digit gets the
  prefix `n_`; and everything is lower-cased.  Characters are ASCII here.
 */
module ColumnNames {

  const Underscore: char := '_'

  /** `str.isalnum` on ASCII characters. */
  predicate IsAlnum(c: char) {
    'a' <= c <= 'z' || 'A' <= c <= 'Z' || '0' <= c <= '9'
  }

  /** `str.isdigit` on ASCII characters. */
  predicate IsDigit(c: char) {
    '0' <= c <= '9'
  }

  predicate IsUpper(c: char) {
    'A' <= c <= 'Z'
  }

  /** The characters a cleaned name is made of, besides `_`. */
  predicate IsLowerAlnum(c: char) {
    'a' <= c <= 'z' || IsDigit(c)
  }

  /** `str.lower` on one ASCII character. */
  function Lower(c: char): (d: char)
    ensures IsAlnum(c) ==> IsLowerAlnum(d)
    ensures IsDigit(d) <==> IsDigit(c)
    ensures !IsUpper(c) ==> d == c
    ensures IsUpper(c) ==> 'a' <= d <= 'z' && d as int - 'a' as int == c as int - 'A' as int
  {
    if IsUpper(c) then (c as int + 32) as char else c
  }

  /** `str.lower` on a string, one character at a time. */
  function LowerString(s: string): (r: string)
  {
    seq(|s|, i requires 0 <= i < |s| => Lower(s[i]))
  }

  /** Step 1: each character that is not a letter or digit is replaced by `_`. */
  function Sanitize(col: string): (r: string)
  {
    seq(|col|, i requires 0 <= i < |col| => if IsAlnum(col[i]) then col[i] else Underscore)
  }

  /** `a` is `b` with some elements left out and the rest in their order. */
  predicate IsSubsequence<T(==)>(a: seq<T>, b: seq<T>)
    decreases |b|
  {
    if a == [] then true
    else if b == [] then false
    else if a[0] == b[0] then IsSubsequence(a[1..], b[1..])
    else IsSubsequence(a, b[1..])
  }

  /** The letters and digits of `s`, in order (also the "safe filename" of an upload). */
  function AlnumOnly(s: string): (r: string)
    ensures forall i :: 0 <= i < |r| ==> IsAlnum(r[i])
  {
    if s == [] then []
    else (if IsAlnum(s[0]) then [s[0]] else []) + AlnumOnly(s[1..])
  }

  /** `AlnumOnly` keeps every letter and digit as often as it occurs, and in its order. */
  lemma {:induction false} AlnumOnlyKeepsAll(s: string)
    ensures forall c :: multiset(AlnumOnly(s))[c] == if IsAlnum(c) then multiset(s)[c] else 0
    ensures IsSubsequence(AlnumOnly(s), s)
  {
    if s != [] {
      AlnumOnlyKeepsAll(s[1..]);
      assert s == [s[0]] + s[1..];
      var rest := AlnumOnly(s[1..]);
      if IsAlnum(s[0]) {
        assert AlnumOnly(s) == [s[0]] + rest;
        assert AlnumOnly(s)[1..] == rest;
      } else {
        assert AlnumOnly(s) == rest;
        assert rest != [] ==> rest[0] != s[0];
      }
    }
  }

  /** The precondition of `clean_column_name`: some letter or digit. */
  predicate HasAlnum(col: string) {
    exists i :: 0 <= i < |col| && IsAlnum(col[i])
  }

  /** `s` with every `sep` removed. */
  function Strip(s: string, sep: char): (r: string)
  {
    if s == [] then []
    else (if s[0] == sep then [] else [s[0]]) + Strip(s[1..], sep)
  }

  /** `s.split(sep)`: the maximal pieces between separators, never an empty list. */
  function Split(s: string, sep: char): (parts: seq<string>)
    ensures |parts| >= 1
    decreases |s|
  {
    if s == [] then [[]]
    else
      var rest := Split(s[1..], sep);
      if s[0] == sep then [[]] + rest
      else [[s[0]] + rest[0]] + rest[1..]
  }

  /** `filter(None, parts)`: drops the empty strings, keeps the order. */
  function NonEmptyParts(parts: seq<string>): (r: seq<string>)
    ensures forall k :: 0 <= k < |r| ==> r[k] != []
    ensures forall k :: 0 <= k < |r| ==> r[k] in parts
  {
    if parts == [] then []
    else (if parts[0] == [] then [] else [parts[0]]) + NonEmptyParts(parts[1..])
  }

  /** `filter(None, ...)` keeps every non-empty part as often as it occurs, and in its order. */
  lemma {:induction false} NonEmptyPartsKeepsAll(parts: seq<string>)
    ensures forall p :: multiset(NonEmptyParts(parts))[p] == if p == [] then 0 else multiset(parts)[p]
    ensures IsSubsequence(NonEmptyParts(parts), parts)
  {
    if parts != [] {
      NonEmptyPartsKeepsAll(parts[1..]);
      assert parts == [parts[0]] + parts[1..];
      var rest := NonEmptyParts(parts[1..]);
      if parts[0] == [] {
        assert NonEmptyParts(parts) == rest;
        assert rest != [] ==> rest[0] != parts[0];
      } else {
        assert NonEmptyParts(parts) == [parts[0]] + rest;
        assert NonEmptyParts(parts)[1..] == rest;
      }
    }
  }

  /** `sep.join(parts)`. */
  function Join(parts: seq<string>, sep: char): (r: string)
  {
    if |parts| == 0 then []
    else if |parts| == 1 then parts[0]
    else parts[0] + [sep] + Join(parts[1..], sep)
  }

  /** All parts, one after the other. */
  function Concat(parts: seq<string>): (r: string)
  {
    if parts == [] then [] else parts[0] + Concat(parts[1..])
  }

  /** Step 2: split at `_`, drop the empty pieces, join the rest with `_`. */
  function Collapse(s: string): (r: string)
  {
    Join(NonEmptyParts(Split(s, Underscore)), Underscore)
  }

  predicate NoDoubleSep(s: string, sep: char) {
    forall i :: 0 <= i < |s| - 1 ==> !(s[i] == sep && s[i + 1] == sep)
  }

  /** The shape every cleaned name has. */
  predicate IsCleanName(s: string) {
    && |s| > 0
    && (forall i :: 0 <= i < |s| ==> IsLowerAlnum(s[i]) || s[i] == Underscore)
    && NoDoubleSep(s, Underscore)
    && s[0] != Underscore
    && s[|s| - 1] != Underscore
    && !IsDigit(s[0])
  }

  /**
    `clean_column_name(col)`.  On a name with no letter or digit the
    collapsed name is empty and the Python function fails reading its first
    character, hence the precondition.
   */
  function CleanColumnName(col: string): (r: string)
    requires HasAlnum(col)
  {
    var cleaned := Collapse(Sanitize(col));
    CollapseEmptyIff(col);
    var prefixed := if IsDigit(cleaned[0]) then "n_" + cleaned else cleaned;
    LowerString(prefixed)
  }

  // ---------------------------------------------------------------------
  // Split, filter and join
  // ---------------------------------------------------------------------

  /** Splitting and joining again gives back the string. */
  lemma {:induction false} JoinSplit(s: string, sep: char)
    ensures Join(Split(s, sep), sep) == s
    decreases |s|
  {
    if s != [] {
      var rest := Split(s[1..], sep);
      JoinSplit(s[1..], sep);
      if s[0] == sep {
        assert Split(s, sep) == [[]] + rest;
        assert ([[]] + rest)[1..] == rest;
      } else if |rest| > 1 {
        assert Split(s, sep)[1..] == rest[1..];
      }
    }
  }

  /** No part of a split holds the separator. */
  lemma {:induction false} SplitPartsSepFree(s: string, sep: char)
    ensures forall k :: 0 <= k < |Split(s, sep)| ==> sep !in Split(s, sep)[k]
    decreases |s|
  {
    if s != [] {
      SplitPartsSepFree(s[1..], sep);
      var rest := Split(s[1..], sep);
      if s[0] != sep {
        assert sep !in [s[0]] + rest[0];
        forall k | 1 <= k < |Split(s, sep)| ensures sep !in Split(s, sep)[k] {
          assert Split(s, sep)[k] == rest[k];
        }
      }
    }
  }

  /** The parts of a split are exactly the non-separator characters, in order. */
  lemma {:induction false} ConcatSplit(s: string, sep: char)
    ensures Concat(Split(s, sep)) == Strip(s, sep)
    decreases |s|
  {
    if s != [] {
      ConcatSplit(s[1..], sep);
      var rest := Split(s[1..], sep);
      if s[0] == sep {
        assert ([[]] + rest)[1..] == rest;
      } else {
        var parts := [[s[0]] + rest[0]] + rest[1..];
        assert parts[1..] == rest[1..];
        assert Concat(rest) == rest[0] + Concat(rest[1..]);
      }
    }
  }

  /** Dropping the empty parts changes no character. */
  lemma {:induction false} ConcatNonEmptyParts(parts: seq<string>)
    ensures Concat(NonEmptyParts(parts)) == Concat(parts)
  {
    if parts != [] {
      ConcatNonEmptyParts(parts[1..]);
      var rest := NonEmptyParts(parts[1..]);
      if parts[0] != [] {
        assert ([parts[0]] + rest)[1..] == rest;
      } else {
        assert NonEmptyParts(parts) == rest;
        assert Concat(parts) == Concat(parts[1..]);
      }
    }
  }

  lemma {:induction false} StripConcatSepFree(a: string, b: string, sep: char)
    requires sep !in a
    ensures Strip(a + b, sep) == a + Strip(b, sep)
    decreases |a|
  {
    if a != [] {
      assert (a + b)[1..] == a[1..] + b;
      StripConcatSepFree(a[1..], b, sep);
    } else {
      assert a + b == b;
    }
  }

  /** Joining sep-free parts and removing the separators gives their concatenation. */
  lemma {:induction false} StripJoin(parts: seq<string>, sep: char)
    requires forall k :: 0 <= k < |parts| ==> sep !in parts[k]
    ensures Strip(Join(parts, sep), sep) == Concat(parts)
  {
    if |parts| == 1 {
      StripConcatSepFree(parts[0], [], sep);
      assert parts[0] + [] == parts[0];
    } else if |parts| > 1 {
      StripJoin(parts[1..], sep);
      assert parts[0] + [sep] + Join(parts[1..], sep) == parts[0] + ([sep] + Join(parts[1..], sep));
      StripConcatSepFree(parts[0], [sep] + Join(parts[1..], sep), sep);
      assert ([sep] + Join(parts[1..], sep))[1..] == Join(parts[1..], sep);
    }
  }

  /** Joining non-empty sep-free parts yields no separator at an end and never two in a row. */
  lemma {:induction false} JoinShape(parts: seq<string>, sep: char)
    requires |parts| > 0
    requires forall k :: 0 <= k < |parts| ==> parts[k] != [] && sep !in parts[k]
    ensures var r := Join(parts, sep);
      |r| > 0 && r[0] != sep && r[|r| - 1] != sep && NoDoubleSep(r, sep)
  {
    var p := parts[0];
    assert p[0] in p && p[|p| - 1] in p;
    if |parts| == 1 {
      forall i | 0 <= i < |p| - 1 ensures !(p[i] == sep && p[i + 1] == sep) {
        assert p[i] in p;
      }
    } else {
      JoinShape(parts[1..], sep);
      var j := Join(parts[1..], sep);
      var r := p + [sep] + j;
      assert Join(parts, sep) == r;
      forall i | 0 <= i < |r| - 1 ensures !(r[i] == sep && r[i + 1] == sep) {
        if i < |p| {
          assert r[i] == p[i] && p[i] in p;
        } else if i > |p| {
          assert r[i] == j[i - |p| - 1] && r[i + 1] == j[i - |p|];
        } else {
          assert r[i + 1] == j[0];
        }
      }
    }
  }

  /** A separator-free piece in front of a string is glued to its first part. */
  lemma {:induction false} SplitSepFreePrefix(a: string, b: string, sep: char)
    requires sep !in a
    ensures Split(a + b, sep) == [a + Split(b, sep)[0]] + Split(b, sep)[1..]
    decreases |a|
  {
    if a == [] {
      var parts := Split(b, sep);
      assert a + b == b;
      assert a + parts[0] == parts[0];
      assert parts == [parts[0]] + parts[1..];
    } else {
      SplitSepFreePrefix(a[1..], b, sep);
      assert (a + b)[1..] == a[1..] + b;
      assert a == [a[0]] + a[1..];
      var rest := Split(a[1..] + b, sep);
      var first := Split(b, sep)[0];
      assert (a + b)[0] == a[0] && a[0] in a;
      assert Split(a + b, sep) == [[a[0]] + rest[0]] + rest[1..];
      assert rest[0] == a[1..] + first;
      assert rest[1..] == Split(b, sep)[1..];
      assert [a[0]] + (a[1..] + first) == a + first;
    }
  }

  lemma SplitAfterSep(t: string, sep: char)
    ensures Split([sep] + t, sep) == [[]] + Split(t, sep)
  {
    assert ([sep] + t)[1..] == t;
  }

  /**
    Splitting undoes joining: a non-empty list of separator-free parts
    joined with `sep` splits back into the same list.  With `JoinSplit`
    this makes `Split` the only list of separator-free parts that joins to
    the string.
   */
  lemma {:induction false} SplitJoin(parts: seq<string>, sep: char)
    requires |parts| >= 1
    requires forall k :: 0 <= k < |parts| ==> sep !in parts[k]
    ensures Split(Join(parts, sep), sep) == parts
  {
    var p := parts[0];
    if |parts| == 1 {
      SplitSepFreePrefix(p, [], sep);
      assert p + [] == p;
      assert [p + []] == parts;
    } else {
      var j := Join(parts[1..], sep);
      SplitJoin(parts[1..], sep);
      assert Join(parts, sep) == p + ([sep] + j);
      SplitSepFreePrefix(p, [sep] + j, sep);
      SplitAfterSep(j, sep);
      assert Split([sep] + j, sep)[1..] == parts[1..];
      assert p + [] == p;
      assert parts == [p] + parts[1..];
    }
  }

  // ---------------------------------------------------------------------
  // Collapsing runs of `_`
  // ---------------------------------------------------------------------

  /** Collapsing keeps every character other than `_`, in order. */
  lemma CollapseKeepsCharacters(s: string)
    ensures Strip(Collapse(s), Underscore) == Strip(s, Underscore)
  {
    var parts := Split(s, Underscore);
    SplitPartsSepFree(s, Underscore);
    var kept := NonEmptyParts(parts);
    StripJoin(kept, Underscore);
    ConcatNonEmptyParts(parts);
    ConcatSplit(s, Underscore);
  }

  /** The result of collapsing has no `_` at an end and never two in a row. */
  lemma CollapseShape(s: string)
    ensures var r := Collapse(s);
      r != [] ==> r[0] != Underscore && r[|r| - 1] != Underscore && NoDoubleSep(r, Underscore)
  {
    var parts := Split(s, Underscore);
    SplitPartsSepFree(s, Underscore);
    var kept := NonEmptyParts(parts);
    if kept != [] {
      JoinShape(kept, Underscore);
    }
  }

  /** The words of a collapsed string are the non-empty pieces between separators of the original. */
  lemma CollapseWords(s: string)
    ensures Collapse(s) != [] ==> Split(Collapse(s), Underscore) == NonEmptyParts(Split(s, Underscore))
  {
    var parts := Split(s, Underscore);
    var kept := NonEmptyParts(parts);
    if kept != [] {
      SplitPartsSepFree(s, Underscore);
      forall k | 0 <= k < |kept| ensures Underscore !in kept[k] {
        var j :| 0 <= j < |parts| && parts[j] == kept[k];
      }
      SplitJoin(kept, Underscore);
    }
  }

  /**
    The words of a name: the non-empty pieces between characters that are
    not letters or digits, that is, its maximal runs of letters and digits.
   */
  function Words(col: string): (w: seq<string>)
    ensures forall k :: 0 <= k < |w| ==> w[k] != []
  {
    NonEmptyParts(Split(Sanitize(col), Underscore))
  }

  /** Together the words hold exactly the letters and digits of the name, in order. */
  lemma WordsLetters(col: string)
    ensures Concat(Words(col)) == AlnumOnly(col)
  {
    ConcatNonEmptyParts(Split(Sanitize(col), Underscore));
    ConcatSplit(Sanitize(col), Underscore);
    StripSanitize(col);
  }

  lemma {:induction false} StripMembers(s: string, sep: char)
    ensures forall c :: c in Strip(s, sep) <==> c in s && c != sep
  {
    if s != [] {
      StripMembers(s[1..], sep);
      assert s == [s[0]] + s[1..];
    }
  }

  lemma {:induction false} StripFirst(s: string, sep: char)
    requires s != [] && s[0] != sep
    ensures Strip(s, sep) != [] && Strip(s, sep)[0] == s[0]
  {
  }

  lemma {:induction false} StripSanitize(col: string)
    ensures Strip(Sanitize(col), Underscore) == AlnumOnly(col)
    decreases |col|
  {
    if col != [] {
      assert Sanitize(col)[1..] == Sanitize(col[1..]);
      StripSanitize(col[1..]);
    }
  }

  lemma {:induction false} AlnumOnlyEmpty(s: string)
    ensures AlnumOnly(s) == [] <==> !HasAlnum(s)
    decreases |s|
  {
    if s != [] {
      AlnumOnlyEmpty(s[1..]);
      if HasAlnum(s[1..]) {
        var i :| 0 <= i < |s[1..]| && IsAlnum(s[1..][i]);
        assert IsAlnum(s[i + 1]);
      }
      if HasAlnum(s) && !IsAlnum(s[0]) {
        var i :| 0 <= i < |s| && IsAlnum(s[i]);
        assert IsAlnum(s[1..][i - 1]);
      }
    }
  }

  /**
    The precondition of `clean_column_name` is exact: the collapsed name is
    empty (so that `cleaned[0]` fails) exactly when the input has no letter
    and no digit.
   */
  lemma CollapseEmptyIff(col: string)
    ensures Collapse(Sanitize(col)) == [] <==> !HasAlnum(col)
  {
    var s := Sanitize(col);
    CollapseKeepsCharacters(s);
    CollapseShape(s);
    StripSanitize(col);
    AlnumOnlyEmpty(col);
    if Collapse(s) != [] {
      StripFirst(Collapse(s), Underscore);
    }
  }

  /** `FirstAlnum(col)`: the name's first letter or digit. */
  function FirstAlnum(col: string): (c: char)
    requires HasAlnum(col)
    ensures IsAlnum(c)
  {
    AlnumOnlyEmpty(col);
    AlnumOnly(col)[0]
  }

  /** The collapsed name is made of letters, digits and `_`, and starts with the first letter or digit. */
  lemma CollapsedSanitized(col: string)
    requires HasAlnum(col)
    ensures var r := Collapse(Sanitize(col));
      && r != []
      && r[0] == FirstAlnum(col)
      && (forall i :: 0 <= i < |r| ==> IsAlnum(r[i]) || r[i] == Underscore)
      && NoDoubleSep(r, Underscore)
      && r[|r| - 1] != Underscore
  {
    var s := Sanitize(col);
    var r := Collapse(s);
    CollapseEmptyIff(col);
    CollapseKeepsCharacters(s);
    CollapseShape(s);
    StripSanitize(col);
    StripFirst(r, Underscore);
    StripMembers(r, Underscore);
    StripMembers(s, Underscore);
    forall i | 0 <= i < |r| ensures IsAlnum(r[i]) || r[i] == Underscore {
      if r[i] != Underscore {
        assert r[i] in Strip(r, Underscore);
        assert r[i] in s;
      }
    }
  }

  lemma LowerStringShape(s: string)
    requires |s| > 0 && !IsDigit(s[0]) && s[0] != Underscore && s[|s| - 1] != Underscore
    requires forall i :: 0 <= i < |s| ==> IsAlnum(s[i]) || s[i] == Underscore
    requires NoDoubleSep(s, Underscore)
    ensures IsCleanName(LowerString(s))
  {
    var r := LowerString(s);
    forall i | 0 <= i < |r| - 1 ensures !(r[i] == Underscore && r[i + 1] == Underscore) {
      assert r[i] == Lower(s[i]) && r[i + 1] == Lower(s[i + 1]);
    }
  }

  // ---------------------------------------------------------------------
  // What `clean_column_name` promises
  // ---------------------------------------------------------------------

  /**
    A cleaned name is non-empty, consists of lower-case letters, digits and
    `_`, never holds two `_` in a row, neither starts nor ends with `_`, and
    does not start with a digit.
   */
  lemma CleanNameFormat(col: string)
    requires HasAlnum(col)
    ensures IsCleanName(CleanColumnName(col))
  {
    var cleaned := Collapse(Sanitize(col));
    CollapsedSanitized(col);
    if IsDigit(cleaned[0]) {
      var prefixed := "n_" + cleaned;
      forall i | 0 <= i < |prefixed| - 1
        ensures !(prefixed[i] == Underscore && prefixed[i + 1] == Underscore)
      {
        if i >= 2 {
          assert prefixed[i] == cleaned[i - 2] && prefixed[i + 1] == cleaned[i - 1];
        }
      }
      LowerStringShape(prefixed);
    } else {
      LowerStringShape(cleaned);
    }
  }

  /**
    The digit rule, stated on the input: when the first letter or digit of
    the name is a digit the result is `n_` followed by it; otherwise the
    result starts with that character lower-cased.
   */
  lemma CleanNameDigitPrefix(col: string)
    requires HasAlnum(col)
    ensures var r := CleanColumnName(col);
      && |r| > 0
      && (IsDigit(FirstAlnum(col)) ==> |r| >= 3 && r[..3] == "n_" + [FirstAlnum(col)])
      && (!IsDigit(FirstAlnum(col)) ==> r[0] == Lower(FirstAlnum(col)))
  {
    var cleaned := Collapse(Sanitize(col));
    CollapsedSanitized(col);
    var prefixed := if IsDigit(cleaned[0]) then "n_" + cleaned else cleaned;
    var r := LowerString(prefixed);
    assert r[0] == Lower(prefixed[0]);
    if IsDigit(cleaned[0]) {
      assert r[1] == Lower(prefixed[1]) && r[2] == Lower(prefixed[2]);
      assert r[..3] == [r[0], r[1], r[2]];
    }
  }

  /**
    The letters and digits of a cleaned name are those of the input,
    lower-cased and in order, after the `n` of the digit prefix.
   */
  lemma CleanNameLetters(col: string)
    requires HasAlnum(col)
    ensures Strip(CleanColumnName(col), Underscore) ==
            (if IsDigit(FirstAlnum(col)) then "n" else "") + LowerString(AlnumOnly(col))
  {
    var cleaned := Collapse(Sanitize(col));
    CollapsedStart(col);
    CollapsedLetters(col);
    if IsDigit(cleaned[0]) {
      assert CleanColumnName(col) == LowerString("n_" + cleaned);
      PrefixedLetters(cleaned);
    } else {
      assert CleanColumnName(col) == LowerString(cleaned);
      StripLower(cleaned);
    }
  }

  /**
    The `_`-separated words of a cleaned name are the words of the input
    (its maximal runs of letters and digits), lower-cased and in order,
    after a first word `n` when the first letter or digit is a digit.
   */
  lemma CleanNameWords(col: string)
    requires HasAlnum(col)
    ensures Split(CleanColumnName(col), Underscore) ==
            (if IsDigit(FirstAlnum(col)) then ["n"] else []) + LowerAll(Words(col))
  {
    var cleaned := Collapse(Sanitize(col));
    CollapsedStart(col);
    CollapseWords(Sanitize(col));
    if IsDigit(cleaned[0]) {
      assert CleanColumnName(col) == LowerString("n_" + cleaned);
      PrefixedWords(cleaned);
    } else {
      assert CleanColumnName(col) == LowerString(cleaned);
      SplitLower(cleaned);
      assert [] + LowerAll(Words(col)) == LowerAll(Words(col));
    }
  }

  lemma CollapsedStart(col: string)
    requires HasAlnum(col)
    ensures Collapse(Sanitize(col)) != [] && Collapse(Sanitize(col))[0] == FirstAlnum(col)
  {
    CollapsedSanitized(col);
  }

  lemma CollapsedLetters(col: string)
    ensures Strip(Collapse(Sanitize(col)), Underscore) == AlnumOnly(col)
  {
    CollapseKeepsCharacters(Sanitize(col));
    StripSanitize(col);
  }

  lemma PrefixedLetters(t: string)
    ensures Strip(LowerString("n_" + t), Underscore) == "n" + LowerString(Strip(t, Underscore))
  {
    StripLower("n_" + t);
    StripPrefix(t);
    LowerStringAppend("n", Strip(t, Underscore));
  }

  lemma PrefixedWords(t: string)
    ensures Split(LowerString("n_" + t), Underscore) == ["n"] + LowerAll(Split(t, Underscore))
  {
    SplitLower("n_" + t);
    assert "n_" + t == "n" + ([Underscore] + t);
    SplitSepFreePrefix("n", [Underscore] + t, Underscore);
    SplitAfterSep(t, Underscore);
    assert "n" + [] == "n";
    LowerAllCons("n", Split(t, Underscore));
  }

  /** Every part lower-cased. */
  function LowerAll(parts: seq<string>): (r: seq<string>)
  {
    seq(|parts|, i requires 0 <= i < |parts| => LowerString(parts[i]))
  }

  lemma LowerAllCons(p: string, parts: seq<string>)
    ensures LowerAll([p] + parts) == [LowerString(p)] + LowerAll(parts)
  {
  }

  /** Lower-casing creates and removes no `_`, so it lower-cases each part of a split. */
  lemma {:induction false} SplitLower(s: string)
    ensures Split(LowerString(s), Underscore) == LowerAll(Split(s, Underscore))
    decreases |s|
  {
    var l := LowerString(s);
    var empty: string := [];
    assert LowerString(empty) == empty;
    if s == [] {
      assert l == [];
      assert LowerAll([empty]) == [empty];
    } else {
      var rest := Split(s[1..], Underscore);
      SplitLower(s[1..]);
      assert l[1..] == LowerString(s[1..]);
      assert l[0] == Lower(s[0]);
      assert l[0] == Underscore <==> s[0] == Underscore;
      var lrest := LowerAll(rest);
      if s[0] == Underscore {
        assert Split(l, Underscore) == [[]] + lrest;
        assert Split(s, Underscore) == [empty] + rest;
        LowerAllCons(empty, rest);
      } else {
        assert Split(l, Underscore) == [[l[0]] + lrest[0]] + lrest[1..];
        assert Split(s, Underscore) == [[s[0]] + rest[0]] + rest[1..];
        LowerStringAppend([s[0]], rest[0]);
        assert LowerString([s[0]]) == [l[0]];
        assert lrest[0] == LowerString(rest[0]);
        assert lrest[1..] == LowerAll(rest[1..]);
        LowerAllCons([s[0]] + rest[0], rest[1..]);
      }
    }
  }

  lemma StripPrefix(t: string)
    ensures Strip("n_" + t, Underscore) == "n" + Strip(t, Underscore)
  {
    assert ("n_" + t)[1..] == "_" + t;
    assert ("_" + t)[1..] == t;
  }

  lemma LowerStringAppend(a: string, b: string)
    ensures LowerString(a + b) == LowerString(a) + LowerString(b)
  {
  }

  lemma {:induction false} StripLower(s: string)
    ensures Strip(LowerString(s), Underscore) == LowerString(Strip(s, Underscore))
    decreases |s|
  {
    if s != [] {
      StripLower(s[1..]);
      assert LowerString(s)[1..] == LowerString(s[1..]);
      if s[0] != Underscore {
        assert LowerString([s[0]] + Strip(s[1..], Underscore))
            == [Lower(s[0])] + LowerString(Strip(s[1..], Underscore));
      }
    }
  }

  /** Splitting a clean-shaped string gives no empty part, so `filter(None, ...)` keeps them all. */
  lemma {:induction false} SplitCleanShape(s: string, sep: char)
    requires |s| > 0 && s[0] != sep && s[|s| - 1] != sep && NoDoubleSep(s, sep)
    ensures forall k :: 0 <= k < |Split(s, sep)| ==> Split(s, sep)[k] != []
    decreases |s|
  {
    var rest := s[1..];
    var parts := Split(rest, sep);
    if rest != [] {
      if rest[0] == sep {
        var tail := rest[1..];
        assert tail != [] by { assert s[|s| - 1] != sep; }
        assert tail[0] == s[2];
        assert tail[0] != sep by { assert !(s[1] == sep && s[2] == sep); }
        assert NoDoubleSep(tail, sep) by {
          forall i | 0 <= i < |tail| - 1 ensures !(tail[i] == sep && tail[i + 1] == sep) {
            assert tail[i] == s[i + 2] && tail[i + 1] == s[i + 3];
          }
        }
        SplitCleanShape(tail, sep);
        assert parts == [[]] + Split(tail, sep);
        forall k | 1 <= k < |Split(s, sep)| ensures Split(s, sep)[k] != [] {
          assert Split(s, sep)[k] == parts[k] == Split(tail, sep)[k - 1];
        }
      } else {
        assert NoDoubleSep(rest, sep) by {
          forall i | 0 <= i < |rest| - 1 ensures !(rest[i] == sep && rest[i + 1] == sep) {
            assert rest[i] == s[i + 1] && rest[i + 1] == s[i + 2];
          }
        }
        SplitCleanShape(rest, sep);
        forall k | 1 <= k < |Split(s, sep)| ensures Split(s, sep)[k] != [] {
          assert Split(s, sep)[k] == parts[k];
        }
      }
    }
  }

  lemma {:induction false} NonEmptyPartsIdentity(parts: seq<string>)
    requires forall k :: 0 <= k < |parts| ==> parts[k] != []
    ensures NonEmptyParts(parts) == parts
  {
    if parts != [] {
      NonEmptyPartsIdentity(parts[1..]);
    }
  }

  /** A name already shaped like a cleaned name is its own cleaned name. */
  lemma CleanShapeIsFixed(s: string)
    requires IsCleanName(s)
    ensures HasAlnum(s) && CleanColumnName(s) == s
  {
    assert IsAlnum(s[0]);
    assert Sanitize(s) == s;
    SplitCleanShape(s, Underscore);
    NonEmptyPartsIdentity(Split(s, Underscore));
    JoinSplit(s, Underscore);
    assert Collapse(s) == s;
    assert LowerString(s) == s;
  }

  /** Cleaning a cleaned name changes nothing. */
  lemma CleanNameIdempotent(col: string)
    requires HasAlnum(col)
    ensures var r := CleanColumnName(col);
      HasAlnum(r) && CleanColumnName(r) == r
  {
    CleanNameFormat(col);
    CleanShapeIsFixed(CleanColumnName(col));
  }
}
