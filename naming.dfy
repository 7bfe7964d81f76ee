/**
 * The naming strategy of `_DatabaseModel._get_table_name`: the class name is lower-cased,
 * handed to `camelcase_to_words`, split on whitespace and the words joined with '_'.
 * `camelcase_to_words` lives in a module that is not part of this model; it is the parameter
 * `toWords`, and every property below holds whatever that function does.
 */
module Naming {
  import opened Records

  /** The characters Python's `str.isspace()` accepts, which `str.split()` separates on. */
  predicate IsSpace(c: char)
  {
    var k := c as int;
    || k == 0x20 || 0x09 <= k <= 0x0D || 0x1C <= k <= 0x1F || k == 0x85 || k == 0xA0
    || k == 0x1680 || 0x2000 <= k <= 0x200A || k == 0x2028 || k == 0x2029
    || k == 0x202F || k == 0x205F || k == 0x3000
  }

  predicate NoSpace(s: string)
  {
    forall i :: 0 <= i < |s| ==> !IsSpace(s[i])
  }

  predicate IsUpper(c: char)
  {
    'A' <= c <= 'Z'
  }

  /** ASCII lower-casing of one character. */
  function LowerChar(c: char): (l: char)
    ensures !IsUpper(l)
    ensures IsSpace(l) <==> IsSpace(c)
  {
    if IsUpper(c) then (c as int + 32) as char else c
  }

  /** `str.lower()`, on the ASCII letters. */
  function Lower(s: string): (l: string)
    ensures |l| == |s|
    ensures forall i :: 0 <= i < |s| ==> l[i] == LowerChar(s[i])
  {
    seq(|s|, i requires 0 <= i < |s| => LowerChar(s[i]))
  }

  /** Length of the leading run of non-space characters of `s`. */
  function WordLength(s: string): (n: nat)
    ensures n <= |s|
    ensures forall i :: 0 <= i < n ==> !IsSpace(s[i])
    ensures n < |s| ==> IsSpace(s[n])
  {
    if s == [] || IsSpace(s[0]) then 0 else 1 + WordLength(s[1..])
  }

  /** `str.split()` with no separator: the maximal runs of non-space characters, in order. */
  function Split(s: string): (words: seq<string>)
    ensures forall k :: 0 <= k < |words| ==> words[k] != [] && NoSpace(words[k])
    decreases |s|
  {
    if s == [] then []
    else if IsSpace(s[0]) then Split(s[1..])
    else
      var n := WordLength(s);
      [s[..n]] + Split(s[n..])
  }

  /** `sep.join(words)`. */
  function Join(sep: string, words: seq<string>): (joined: string)
    ensures NoSpace(sep) && (forall k :: 0 <= k < |words| ==> NoSpace(words[k])) ==> NoSpace(joined)
  {
    if |words| == 0 then ""
    else if |words| == 1 then words[0]
    else words[0] + sep + Join(sep, words[1..])
  }

  /** The non-space characters of `s`, in order. */
  function NonSpace(s: string): string
  {
    if s == [] then [] else (if IsSpace(s[0]) then [] else [s[0]]) + NonSpace(s[1..])
  }

  function Concat(words: seq<string>): string
  {
    if words == [] then [] else words[0] + Concat(words[1..])
  }

  /** The storage name of a record type: `"_".join(camelcase_to_words(name.lower()).split())`. */
  function TableName(toWords: string -> string, typeName: string): (n: string)
    ensures NoSpace(n)
  {
    Join("_", Split(toWords(Lower(typeName))))
  }

  /** The argument of `_get_table_name`: an instance, or the dataclass itself. */
  datatype InstanceOrClass = Instance(r: Record) | Class(t: RecordType)

  /** `_get_table_name`: an instance is replaced by its class before the name is derived. */
  function GetTableName(toWords: string -> string, x: InstanceOrClass): (n: string)
    ensures NoSpace(n)
    ensures x.Class? ==> n == TableName(toWords, x.t.name)
  {
    var t := if x.Instance? then x.r.rtype else x.t;
    TableName(toWords, t.name)
  }

  /** An instance and its class are stored under the same name. */
  lemma InstanceAndClassShareName(toWords: string -> string, r: Record)
    ensures GetTableName(toWords, Instance(r)) == GetTableName(toWords, Class(r.rtype))
  {
  }

  /** Lower-casing twice is lower-casing once. */
  lemma LowerIdempotent(s: string)
    ensures Lower(Lower(s)) == Lower(s)
  {
  }

  /**
   * Because the name is lower-cased before `camelcase_to_words` sees it, two class names that
   * differ only in ASCII case get the same table, whatever `camelcase_to_words` does.
   */
  lemma TableNameIgnoresCase(toWords: string -> string, a: string, b: string)
    requires Lower(a) == Lower(b)
    ensures TableName(toWords, a) == TableName(toWords, b)
  {
  }

  lemma NonSpaceOfAppend(a: string, b: string)
    ensures NonSpace(a + b) == NonSpace(a) + NonSpace(b)
    decreases |a|
  {
    if a == [] {
      assert a + b == b;
    } else {
      assert (a + b)[0] == a[0];
      assert (a + b)[1..] == a[1..] + b;
      NonSpaceOfAppend(a[1..], b);
    }
  }

  lemma {:induction false} NonSpaceOfWord(s: string)
    requires NoSpace(s)
    ensures NonSpace(s) == s
    decreases |s|
  {
    if s != [] {
      NonSpaceOfWord(s[1..]);
    }
  }

  /** `split()` loses exactly the whitespace: its words, concatenated, are the non-space characters. */
  lemma {:induction false} SplitKeepsNonSpace(s: string)
    ensures Concat(Split(s)) == NonSpace(s)
    decreases |s|
  {
    if s == [] {
    } else if IsSpace(s[0]) {
      SplitKeepsNonSpace(s[1..]);
    } else {
      var n := WordLength(s);
      assert s == s[..n] + s[n..];
      SplitKeepsNonSpace(s[n..]);
      NonSpaceOfWord(s[..n]);
      NonSpaceOfAppend(s[..n], s[n..]);
      assert Split(s) == [s[..n]] + Split(s[n..]);
      assert Concat(Split(s)) == s[..n] + Concat(Split(s[n..]));
    }
  }

  /** A non-empty string without whitespace splits into itself. */
  lemma SplitOfWord(s: string)
    requires s != [] && NoSpace(s)
    ensures Split(s) == [s]
  {
    assert WordLength(s) == |s|;
    assert s[..|s|] == s;
    assert s[|s|..] == [];
  }

  /** When `camelcase_to_words` yields a single non-empty word, that word is the table name. */
  lemma TableNameOfOneWord(toWords: string -> string, typeName: string)
    requires toWords(Lower(typeName)) != [] && NoSpace(toWords(Lower(typeName)))
    ensures TableName(toWords, typeName) == toWords(Lower(typeName))
  {
    SplitOfWord(toWords(Lower(typeName)));
  }

  /** `split()` undoes `" ".join` on non-empty words without whitespace. */
  lemma {:induction false} SplitJoinRoundTrip(words: seq<string>)
    requires forall k :: 0 <= k < |words| ==> words[k] != [] && NoSpace(words[k])
    ensures Split(Join(" ", words)) == words
  {
    if |words| == 0 {
    } else if |words| == 1 {
      SplitOfWord(words[0]);
    } else {
      assert Join(" ", words) == words[0] + " " + Join(" ", words[1..]);
      SplitOfWordThenSpace(words[0], Join(" ", words[1..]));
      SplitJoinRoundTrip(words[1..]);
      assert words == [words[0]] + words[1..];
    }
  }

  /** A non-empty word without whitespace, then a space, splits off as the first word. */
  lemma SplitOfWordThenSpace(w: string, rest: string)
    requires w != [] && NoSpace(w)
    ensures Split(w + " " + rest) == [w] + Split(rest)
  {
    var s := w + " " + rest;
    assert s == w + (" " + rest);
    WordLengthOfWordThenSpace(w, " " + rest);
    assert s[..|w|] == w;
    assert s[|w|..] == " " + rest;
    assert Split(" " + rest) == Split(rest) by {
      assert (" " + rest)[1..] == rest;
    }
  }

  lemma {:induction false} WordLengthOfWordThenSpace(w: string, t: string)
    requires NoSpace(w) && t != [] && IsSpace(t[0])
    ensures WordLength(w + t) == |w|
    decreases |w|
  {
    if w != [] {
      assert (w + t)[1..] == w[1..] + t;
      WordLengthOfWordThenSpace(w[1..], t);
    }
  }
}
