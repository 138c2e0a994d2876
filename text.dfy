/** Joining lines with single newlines, splitting them apart again, and cutting a line at a separator. */
module Text {
  import opened Wrappers

  /** The lines, with one `\n` between neighbours and none after the last. */
  function Join(lines: seq<string>): string
  {
    if |lines| == 0 then ""
    else if |lines| == 1 then lines[0]
    else lines[0] + "\n" + Join(lines[1..])
  }

  /** The pieces of `s` between its `\n` characters; there is always at least one. */
  function Split(s: string): (r: seq<string>)
    ensures |r| >= 1
  {
    if s == [] then [""]
    else
      var rest := Split(s[1..]);
      if s[0] == '\n' then [""] + rest else [[s[0]] + rest[0]] + rest[1..]
  }

  /** `s` cut at the first occurrence of `sep`; `None` when it has none. */
  function Cut(s: string, sep: char): Option<(string, string)>
  {
    if s == [] then None
    else if s[0] == sep then Some(([], s[1..]))
    else
      match Cut(s[1..], sep)
      case None => None
      case Some((before, after)) => Some(([s[0]] + before, after))
  }

  lemma {:induction false} SplitLineFree(l: string, t: string)
    requires '\n' !in l
    ensures Split(l + t) == [l + Split(t)[0]] + Split(t)[1..]
  {
    if l != [] {
      assert (l + t)[1..] == l[1..] + t;
      SplitLineFree(l[1..], t);
      assert [l[0]] + (l[1..] + Split(t)[0]) == l + Split(t)[0];
    } else {
      assert l + t == t;
      assert l + Split(t)[0] == Split(t)[0];
      assert Split(t) == [Split(t)[0]] + Split(t)[1..];
    }
  }

  /** Splitting undoes joining when no line holds a newline of its own. */
  lemma {:induction false} SplitJoin(lines: seq<string>)
    requires |lines| >= 1
    requires forall i :: 0 <= i < |lines| ==> '\n' !in lines[i]
    ensures Split(Join(lines)) == lines
  {
    if |lines| == 1 {
      SplitLineFree(lines[0], "");
      assert lines[0] + "" == lines[0];
    } else {
      var rest := Join(lines[1..]);
      SplitJoin(lines[1..]);
      assert Split("\n" + rest) == [""] + Split(rest) by {
        assert ("\n" + rest)[1..] == rest;
      }
      assert lines[0] + "\n" + rest == lines[0] + ("\n" + rest);
      SplitLineFree(lines[0], "\n" + rest);
      assert Split(Join(lines)) == [lines[0] + ""] + Split(rest);
      assert lines[0] + "" == lines[0];
      assert lines == [lines[0]] + lines[1..];
    }
  }

  /** Cutting `key + [sep] + value` at `sep` gives back the two parts when `key` does not hold `sep`. */
  lemma {:induction false} CutAtFirst(key: string, sep: char, value: string)
    requires sep !in key
    ensures Cut(key + [sep] + value, sep) == Some((key, value))
  {
    if key != [] {
      assert (key + [sep] + value)[1..] == key[1..] + [sep] + value;
      CutAtFirst(key[1..], sep, value);
      assert [key[0]] + key[1..] == key;
    } else {
      assert key + [sep] + value == [sep] + value;
    }
  }
}
