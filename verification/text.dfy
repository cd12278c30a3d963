/** The string handling the handlers rely on: Python's `str.split(',')`, the
    blank test of a required form field, and the list of filled form slots. */
module Text {

  /** The pieces of `s` between commas, as `s.split(',')` returns them:
      empty pieces are kept and the empty string gives one empty piece. */
  function Split(s: string): (r: seq<string>)
    ensures |r| >= 1
    ensures forall p :: p in r ==> ',' !in p
  {
    if |s| == 0 then [""]
    else
      var rest := Split(s[1..]);
      if s[0] == ',' then [""] + rest
      else [[s[0]] + rest[0]] + rest[1..]
  }

  /** The inverse of `Split`: the pieces glued back with commas. */
  function Join(parts: seq<string>): string
    requires |parts| >= 1
  {
    if |parts| == 1 then parts[0] else parts[0] + "," + Join(parts[1..])
  }

  lemma {:induction false} JoinSplit(s: string)
    ensures Join(Split(s)) == s
  {
    if |s| > 0 {
      var rest := Split(s[1..]);
      JoinSplit(s[1..]);
      if s[0] == ',' {
        assert Split(s) == [""] + rest;
        assert Join([""] + rest) == "" + "," + Join(rest);
        assert s == [s[0]] + s[1..];
      } else if |rest| == 1 {
        assert Split(s) == [[s[0]] + rest[0]];
        assert s == [s[0]] + s[1..];
      } else {
        var parts := [[s[0]] + rest[0]] + rest[1..];
        assert parts[1..] == rest[1..];
        assert Join(rest) == rest[0] + "," + Join(rest[1..]);
        assert Join(parts) == ([s[0]] + rest[0]) + "," + Join(rest[1..]);
        assert s == [s[0]] + s[1..];
      }
    }
  }

  /** Splitting a comma-free piece followed by a comma and more text. */
  lemma {:induction false} SplitPrefix(a: string, t: string)
    requires ',' !in a
    ensures Split(a + "," + t) == [a] + Split(t)
  {
    if |a| == 0 {
      assert a + "," + t == [','] + t;
      assert (a + "," + t)[1..] == t;
    } else {
      SplitPrefix(a[1..], t);
      var s := a + "," + t;
      assert s[0] == a[0];
      assert s[1..] == a[1..] + "," + t;
      assert a == [a[0]] + a[1..];
    }
  }

  lemma {:induction false} SplitPlain(a: string)
    requires ',' !in a
    ensures Split(a) == [a]
  {
    if |a| > 0 {
      SplitPlain(a[1..]);
      assert a == [a[0]] + a[1..];
    }
  }

  lemma {:induction false} SplitJoin(parts: seq<string>)
    requires |parts| >= 1
    requires forall p :: p in parts ==> ',' !in p
    ensures Split(Join(parts)) == parts
  {
    if |parts| == 1 {
      SplitPlain(parts[0]);
    } else {
      assert parts[0] in parts;
      assert forall p :: p in parts[1..] ==> p in parts;
      SplitJoin(parts[1..]);
      SplitPrefix(parts[0], Join(parts[1..]));
      assert parts == [parts[0]] + parts[1..];
    }
  }

  /** The characters Python's `str.strip()` removes from the ends that lie in
      the ASCII range. */
  predicate IsSpace(c: char)
  {
    c == ' ' || '\t' <= c <= '\r' || '\U{1C}' <= c <= '\U{1F}'
  }

  /** A value a `DataRequired` field rejects: empty, or only whitespace. */
  predicate IsBlank(s: string)
  {
    forall i :: 0 <= i < |s| ==> IsSpace(s[i])
  }

  /** The filled slots of a fixed group of form fields, in slot order, as
      `[data[x] for x in data if <prefix> in x and data[x] != ""]` collects them. */
  function Filled(fields: seq<string>): (r: seq<string>)
    ensures |r| <= |fields|
    ensures forall x :: x in r <==> x in fields && x != ""
  {
    if fields == [] then []
    else (if fields[0] == "" then [] else [fields[0]]) + Filled(fields[1..])
  }

  /** When every slot from `m` on is empty, at most `m` slots are filled. */
  lemma {:induction false} FilledBound(fields: seq<string>, m: nat)
    requires forall k :: m <= k < |fields| ==> fields[k] == ""
    ensures |Filled(fields)| <= m
  {
    if fields != [] {
      if m == 0 {
        FilledBound(fields[1..], 0);
        assert fields[0] == "";
      } else {
        FilledBound(fields[1..], m - 1);
      }
    }
  }
}
