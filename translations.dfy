/** The interface-string lookup (lib/translations.ts): a dotted key is split at its dots
    and walked step by step through a nested dictionary whose leaves are bilingual texts;
    the key itself comes back whenever the walk does not end on a leaf. The dictionary is
    a parameter. */
module Translations {

  import opened Wrappers
  import opened Types
  import Seqs

  /** A dictionary node: a group of named entries, or a bilingual leaf. */
  datatype Node = Group(entries: seq<(string, Node)>) | Leaf(text: BilingualText)

  /** `getTranslation` takes a bare code or a language record. */
  datatype LanguageArg = CodeArg(code: LanguageCode) | LanguageRecord(language: Language)

  function CodeOf(l: LanguageArg): LanguageCode
  {
    match l
    case CodeArg(c) => c
    case LanguageRecord(r) => r.code
  }

  // ---------------------------------------------------------------------
  // String.prototype.split and Array.prototype.join on one character
  // ---------------------------------------------------------------------

  /** `s.split(sep)`: the pieces between the separators, at least one. */
  function Split(s: string, sep: char): (r: seq<string>)
    ensures |r| >= 1
    ensures forall i :: 0 <= i < |r| ==> sep !in r[i]
    decreases |s|
  {
    var i := Seqs.IndexOf(s, sep);
    if i < 0 then [s]
    else
      var rest := Split(s[i + 1..], sep);
      assert forall j :: 1 <= j < 1 + |rest| ==> ([s[..i]] + rest)[j] == rest[j - 1];
      [s[..i]] + rest
  }

  /** `parts.join(sep)`. */
  function Join(parts: seq<string>, sep: char): string
    requires |parts| >= 1
  {
    if |parts| == 1 then parts[0] else parts[0] + [sep] + Join(parts[1..], sep)
  }

  /** The first separator of `a + [sep] + b` is the one after `a` when `a` has none. */
  lemma FirstSeparator(a: string, sep: char, b: string)
    requires sep !in a
    ensures Seqs.IndexOf(a + [sep] + b, sep) == |a|
    ensures (a + [sep] + b)[..|a|] == a && (a + [sep] + b)[|a| + 1..] == b
  {
    var s := a + [sep] + b;
    assert s[|a|] == sep;
    forall j | |a| < j <= |s| ensures sep in s[..j] {
      assert s[..j][|a|] == sep;
    }
    forall j | 0 <= j < |a| ensures s[j] != sep {
      assert s[j] == a[j];
    }
  }

  /** A text without the separator, the separator, then the rest: the text is the first
      piece. */
  lemma SplitFirst(a: string, sep: char, b: string)
    requires sep !in a
    ensures Split(a + [sep] + b, sep) == [a] + Split(b, sep)
  {
    FirstSeparator(a, sep, b);
  }

  /** Joining pieces without separators and splitting again gives the pieces back. */
  lemma {:induction false} SplitJoin(parts: seq<string>, sep: char)
    requires |parts| >= 1
    requires forall i :: 0 <= i < |parts| ==> sep !in parts[i]
    ensures Split(Join(parts, sep), sep) == parts
  {
    if |parts| > 1 {
      var tail := parts[1..];
      assert Join(parts, sep) == parts[0] + [sep] + Join(tail, sep);
      SplitFirst(parts[0], sep, Join(tail, sep));
      SplitJoin(tail, sep);
      assert parts == [parts[0]] + tail;
    }
  }

  lemma JoinCons(p: string, rest: seq<string>, sep: char)
    requires |rest| >= 1
    ensures Join([p] + rest, sep) == p + [sep] + Join(rest, sep)
  {
    assert ([p] + rest)[1..] == rest;
  }

  lemma Around<T>(s: seq<T>, i: nat)
    requires i < |s|
    ensures s == s[..i] + [s[i]] + s[i + 1..]
  {
  }

  /** Splitting and joining again gives the string back. */
  lemma {:induction false} JoinSplit(s: string, sep: char)
    ensures Join(Split(s, sep), sep) == s
    decreases |s|
  {
    var i := Seqs.IndexOf(s, sep);
    SplitUnfold(s, sep);
    if i >= 0 {
      JoinSplit(s[i + 1..], sep);
      JoinSplitStep(s, sep, i, Split(s[i + 1..], sep));
    }
  }

  lemma SplitUnfold(s: string, sep: char)
    ensures var i := Seqs.IndexOf(s, sep);
      && (i < 0 ==> Split(s, sep) == [s])
      && (i >= 0 ==> Split(s, sep) == [s[..i]] + Split(s[i + 1..], sep))
  {
  }

  lemma JoinSplitStep(s: string, sep: char, i: nat, rest: seq<string>)
    requires i < |s| && s[i] == sep && |rest| >= 1
    requires Join(rest, sep) == s[i + 1..]
    ensures Join([s[..i]] + rest, sep) == s
  {
    JoinCons(s[..i], rest, sep);
    Around(s, i);
  }

  // ---------------------------------------------------------------------
  // The walk
  // ---------------------------------------------------------------------

  /** The entry of a group named `k`, the first one if the name repeats. */
  function Lookup(entries: seq<(string, Node)>, k: string): (r: Option<Node>)
    ensures r.Some? <==> exists i :: 0 <= i < |entries| && entries[i].0 == k
    ensures r.Some? ==> exists i :: 0 <= i < |entries| && entries[i].0 == k && entries[i].1 == r.value
  {
    if entries == [] then None
    else if entries[0].0 == k then Some(entries[0].1)
    else
      var r := Lookup(entries[1..], k);
      assert forall i :: 1 <= i < |entries| ==> entries[i] == entries[1..][i - 1];
      r
  }

  /** One step `value = value?.[k]`: a group yields its entry, and nothing else yields a
      node (stepping into a leaf gives a string or undefined, from which no later step
      reaches a node again). */
  function Step(n: Node, k: string): Option<Node>
  {
    match n
    case Group(entries) => Lookup(entries, k)
    case Leaf(_) => None
  }

  /** The node reached by the steps of `path`, taken in order. */
  function Walk(n: Node, path: seq<string>): Option<Node>
  {
    if path == [] then Some(n)
    else match Walk(n, path[..|path| - 1])
      case None => None
      case Some(m) => Step(m, path[|path| - 1])
  }

  /** Once the walk has fallen off the dictionary it stays off. */
  lemma {:induction false} WalkStaysOff(n: Node, path: seq<string>, i: nat)
    requires i <= |path|
    requires Walk(n, path[..i]).None?
    ensures Walk(n, path).None?
    decreases |path| - i
  {
    if i < |path| {
      assert path[..i + 1][..i] == path[..i];
      WalkStaysOff(n, path, i + 1);
    } else {
      assert path[..i] == path;
    }
  }

  /** What `getTranslation(key, language)` returns: the leaf's text in the language when
      the walk of the key's dotted steps ends on a leaf, and the key itself otherwise (a
      group is returned as the key because no group has an entry named `en` or `dv`). */
  function Translate(dictionary: Node, key: string, language: LanguageArg): string
  {
    match Walk(dictionary, Split(key, '.'))
    case Some(Leaf(t)) => if CodeOf(language) == En then t.en else t.dv
    case _ => key
  }

  /** `getTranslation(key, language)`: the loop over the dotted steps, returning the key as
      soon as a step finds nothing. */
  method GetTranslation(dictionary: Node, key: string, language: LanguageArg) returns (r: string)
    ensures r == Translate(dictionary, key, language)
  {
    var code := CodeOf(language);
    var keys := Split(key, '.');
    var value := dictionary;
    var i := 0;
    while i < |keys|
      invariant 0 <= i <= |keys|
      invariant Walk(dictionary, keys[..i]) == Some(value)
    {
      assert keys[..i + 1][..i] == keys[..i];
      var next := Step(value, keys[i]);
      if next.None? {
        WalkStaysOff(dictionary, keys, i + 1);
        return key;
      }
      value := next.value;
      i := i + 1;
    }
    assert keys[..i] == keys;
    match value {
      case Leaf(t) =>
        r := if code == En then t.en else t.dv;
      case Group(_) =>
        r := key;
    }
  }

  /** Every path of the dictionary that ends on a leaf, written with dots, resolves to that
      leaf's text in the requested language. */
  lemma KeyOfLeafResolves(dictionary: Node, path: seq<string>, language: LanguageArg)
    requires |path| >= 1
    requires forall i :: 0 <= i < |path| ==> '.' !in path[i]
    requires Walk(dictionary, path).Some? && Walk(dictionary, path).value.Leaf?
    ensures var t := Walk(dictionary, path).value.text;
      Translate(dictionary, Join(path, '.'), language) == if CodeOf(language) == En then t.en else t.dv
  {
    SplitJoin(path, '.');
  }

  /** A path that ends on a group (such as a key naming a whole section) or leaves the
      dictionary gives back the key as written. */
  lemma KeyOfGroupIsReturned(dictionary: Node, path: seq<string>, language: LanguageArg)
    requires |path| >= 1
    requires forall i :: 0 <= i < |path| ==> '.' !in path[i]
    requires Walk(dictionary, path).None? || Walk(dictionary, path).value.Group?
    ensures Translate(dictionary, Join(path, '.'), language) == Join(path, '.')
  {
    SplitJoin(path, '.');
  }

  /** `useTranslation().t`: the placeholder returns its key unchanged. */
  function PlaceholderT(key: string): (r: string)
    ensures r == key
  {
    key
  }
}
