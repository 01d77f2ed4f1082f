/**
 * String.split with a one-character separator and no limit: the fields
 * between separators, with trailing empty fields removed; a string without
 * the separator splits into itself alone.
 */
module JavaSplit {

  /** Every field between separators, empty ones included. */
  function Fields(s: string, c: char): (r: seq<string>)
    ensures |r| >= 1
    ensures c in s ==> |r| >= 2
    ensures forall i :: 0 <= i < |r| ==> c !in r[i]
  {
    if s == [] then [""]
    else
      var rest := Fields(s[1..], c);
      if s[0] == c then [""] + rest else [[s[0]] + rest[0]] + rest[1..]
  }

  /** The fields put back together with the separator between them. */
  function Join(fs: seq<string>, c: char): string
    requires |fs| >= 1
  {
    if |fs| == 1 then fs[0] else fs[0] + [c] + Join(fs[1..], c)
  }

  /** Splitting into fields loses nothing: joining them gives the string back. */
  lemma {:induction false} JoinFields(s: string, c: char)
    ensures Join(Fields(s, c), c) == s
  {
    if s != [] {
      JoinFields(s[1..], c);
      var rest := Fields(s[1..], c);
      if s[0] == c {
        assert s == [c] + s[1..];
      } else if |rest| == 1 {
        assert s == [s[0]] + s[1..];
      } else {
        var fs := Fields(s, c);
        assert fs[1..] == rest[1..];
        assert s == [s[0]] + s[1..];
      }
    }
  }

  /** A string without the separator is one field. */
  lemma {:induction false} FieldsNoSeparator(s: string, c: char)
    requires c !in s
    ensures Fields(s, c) == [s]
  {
    if s != [] {
      FieldsNoSeparator(s[1..], c);
      assert s == [s[0]] + s[1..];
    }
  }

  /** The fields of `x + c + y` are those of `x` followed by those of `y`. */
  lemma {:induction false} FieldsAppend(x: string, y: string, c: char)
    ensures Fields(x + [c] + y, c) == Fields(x, c) + Fields(y, c)
  {
    var s := x + [c] + y;
    if x == [] {
      assert s[1..] == y;
    } else {
      assert s[0] == x[0] && s[1..] == x[1..] + [c] + y;
      FieldsAppend(x[1..], y, c);
    }
  }

  /** A separator-free word in front adds one field in front. */
  lemma FieldsCons(w: string, y: string, c: char)
    requires c !in w
    ensures Fields(w + [c] + y, c) == [w] + Fields(y, c)
  {
    FieldsAppend(w, y, c);
    FieldsNoSeparator(w, c);
  }

  /** A separator-free word at the back adds one field at the back. */
  lemma FieldsSnoc(x: string, w: string, c: char)
    requires c !in w
    ensures Fields(x + [c] + w, c) == Fields(x, c) + [w]
  {
    FieldsAppend(x, w, c);
    FieldsNoSeparator(w, c);
  }

  /** With two or more fields, the last non-empty, split returns exactly the fields. */
  lemma SplitKeepsFields(s: string, c: char)
    requires |Fields(s, c)| >= 2 && Fields(s, c)[|Fields(s, c)| - 1] != ""
    ensures Split(s, c) == Fields(s, c)
  {
    if c !in s {
      FieldsNoSeparator(s, c);
    }
  }

  function DropTrailingEmpty(fs: seq<string>): (r: seq<string>)
    ensures |r| <= |fs| && r == fs[..|r|]
    ensures r != [] ==> r[|r| - 1] != ""
  {
    if fs != [] && fs[|fs| - 1] == "" then DropTrailingEmpty(fs[..|fs| - 1]) else fs
  }

  /** s.split(String.valueOf(c)). */
  function Split(s: string, c: char): seq<string>
  {
    if c !in s then [s] else DropTrailingEmpty(Fields(s, c))
  }
}
