/**
 * The java.lang.String operations the response parser and the retry loop rely on:
 * trim, isEmpty-after-trim, toLowerCase (ASCII only), startsWith and split on a
 * single non-regex character with the default limit of zero.
 */
module JavaText {

  /** String.trim removes every char whose code is at most U+0020 from both ends. */
  predicate IsTrimmable(c: char) {
    c <= ' '
  }

  /** The chars that trim removes from the front. */
  function TrimStart(s: string): (r: string)
    ensures |r| <= |s|
  {
    if |s| > 0 && IsTrimmable(s[0]) then TrimStart(s[1..]) else s
  }

  /** What TrimStart leaves is a suffix of `s` that does not start with a trimmable char, and
      every char it removed is trimmable. */
  lemma {:induction false} TrimStartSpec(s: string)
    ensures var r := TrimStart(s);
      && r == s[|s| - |r|..]
      && (r == [] || !IsTrimmable(r[0]))
      && forall i :: 0 <= i < |s| - |r| ==> IsTrimmable(s[i])
  {
    if |s| > 0 && IsTrimmable(s[0]) {
      TrimStartSpec(s[1..]);
      var r := TrimStart(s);
      assert s[1..][|s| - 1 - |r|..] == s[|s| - |r|..];
      forall i | 0 < i < |s| - |r| ensures IsTrimmable(s[i]) {
        assert s[i] == s[1..][i - 1];
      }
    }
  }

  /** The chars that trim removes from the back. */
  function TrimEnd(s: string): (r: string)
    ensures |r| <= |s|
  {
    if |s| > 0 && IsTrimmable(s[|s| - 1]) then TrimEnd(s[..|s| - 1]) else s
  }

  /** What TrimEnd leaves is a prefix of `s` that does not end with a trimmable char, and every
      char it removed is trimmable. */
  lemma {:induction false} TrimEndSpec(s: string)
    ensures var r := TrimEnd(s);
      && r == s[..|r|]
      && (r == [] || !IsTrimmable(r[|r| - 1]))
      && forall i :: |r| <= i < |s| ==> IsTrimmable(s[i])
  {
    if |s| > 0 && IsTrimmable(s[|s| - 1]) {
      TrimEndSpec(s[..|s| - 1]);
      var r := TrimEnd(s);
      assert s[..|s| - 1][..|r|] == s[..|r|];
      forall i | |r| <= i < |s| - 1 ensures IsTrimmable(s[i]) {
        assert s[i] == s[..|s| - 1][i];
      }
    }
  }

  /** String.trim. */
  function Trim(s: string): (r: string)
    ensures |r| <= |s|
  {
    TrimEnd(TrimStart(s))
  }

  /** Every char of `s` is at or below U+0020. */
  predicate IsBlank(s: string) {
    forall i :: 0 <= i < |s| ==> IsTrimmable(s[i])
  }

  /** The trim of `s` is empty exactly when `s` is blank (so `s.trim().isEmpty()` tests
      blankness), and otherwise starts and ends with a char above U+0020. */
  lemma TrimSpec(s: string)
    ensures Trim(s) == [] <==> IsBlank(s)
    ensures Trim(s) != [] ==> !IsTrimmable(Trim(s)[0]) && !IsTrimmable(Trim(s)[|Trim(s)| - 1])
  {
    var front := TrimStart(s);
    TrimStartSpec(s);
    TrimEndSpec(front);
    var r := TrimEnd(front);
    if r == [] {
      assert front == [];
    } else {
      assert r[0] == front[0] == s[|s| - |front|];
    }
  }

  /** A string whose ends are not trimmable is its own trim. */
  lemma {:induction false} TrimUntrimmed(s: string)
    requires s != [] ==> !IsTrimmable(s[0]) && !IsTrimmable(s[|s| - 1])
    ensures Trim(s) == s
  {
    assert TrimStart(s) == s;
    assert TrimEnd(s) == s;
  }

  /** Trimming twice is trimming once. */
  lemma {:induction false} TrimIdempotent(s: string)
    ensures Trim(Trim(s)) == Trim(s)
  {
    TrimSpec(s);
    TrimUntrimmed(Trim(s));
  }

  /** Character.toLowerCase restricted to ASCII: 'A'..'Z' become 'a'..'z', every other char is kept. */
  function LowerChar(c: char): (r: char)
    ensures 'A' <= c <= 'Z' ==> 'a' <= r <= 'z' && r as int - c as int == 32
    ensures !('A' <= c <= 'Z') ==> r == c
  {
    if 'A' <= c <= 'Z' then (c as int + 32) as char else c
  }

  /** String.toLowerCase, ASCII only: lower-cases char by char. */
  function ToLowerAscii(s: string): (r: string)
    ensures |r| == |s|
  {
    if s == [] then [] else [LowerChar(s[0])] + ToLowerAscii(s[1..])
  }

  /** Each char of the result is the lower-case form of the char at the same place. */
  lemma {:induction false} ToLowerAsciiAt(s: string)
    ensures forall i :: 0 <= i < |s| ==> ToLowerAscii(s)[i] == LowerChar(s[i])
  {
    if s != [] {
      ToLowerAsciiAt(s[1..]);
    }
  }

  /** String.startsWith. */
  predicate StartsWith(s: string, prefix: string) {
    |prefix| <= |s| && s[..|prefix|] == prefix
  }

  /** The fields of `s` between occurrences of `d`, empty fields included: one more field than
      there are delimiters. */
  function Fields(s: string, d: char): (r: seq<string>)
    ensures |r| >= 1
  {
    if s == [] then [[]]
    else
      var rest := Fields(s[1..], d);
      if s[0] == d then [[]] + rest
      else [[s[0]] + rest[0]] + rest[1..]
  }

  /** No field contains the delimiter. */
  lemma {:induction false} FieldsExcludeDelimiter(s: string, d: char)
    ensures forall k :: 0 <= k < |Fields(s, d)| ==> d !in Fields(s, d)[k]
  {
    if s != [] {
      FieldsExcludeDelimiter(s[1..], d);
      var rest := Fields(s[1..], d);
      if s[0] != d {
        assert d !in [s[0]] + rest[0];
        assert forall k :: 1 <= k < |Fields(s, d)| ==> Fields(s, d)[k] == rest[k];
      } else {
        assert forall k :: 1 <= k < |Fields(s, d)| ==> Fields(s, d)[k] == rest[k - 1];
      }
    }
  }

  /** Puts the delimiter back between fields. */
  function Join(fields: seq<string>, d: char): string
    requires |fields| >= 1
  {
    if |fields| == 1 then fields[0] else fields[0] + [d] + Join(fields[1..], d)
  }

  /** Splitting and re-joining gives back the original string. */
  lemma {:induction false} JoinFields(s: string, d: char)
    ensures Join(Fields(s, d), d) == s
  {
    if s != [] {
      var rest := Fields(s[1..], d);
      JoinFields(s[1..], d);
      if s[0] != d {
        if |rest| == 1 {
          assert Fields(s, d) == [[s[0]] + rest[0]];
        } else {
          assert Fields(s, d)[1..] == rest[1..];
        }
      } else {
        assert Fields(s, d)[1..] == rest;
      }
    }
  }

  /** Without a delimiter there is a single field: the whole string. */
  lemma {:induction false} FieldsWithoutDelimiter(s: string, d: char)
    requires d !in s
    ensures Fields(s, d) == [s]
  {
    if s != [] {
      FieldsWithoutDelimiter(s[1..], d);
      assert [s[0]] + s[1..] == s;
    }
  }

  /** The text before the first delimiter is the first field; the rest splits on its own. */
  lemma {:induction false} FieldsAtDelimiter(t: string, d: char, u: string)
    requires d !in t
    ensures Fields(t + [d] + u, d) == [t] + Fields(u, d)
  {
    if t == [] {
      assert t + [d] + u == [d] + u;
      assert ([d] + u)[1..] == u;
    } else {
      FieldsAtDelimiter(t[1..], d, u);
      assert (t + [d] + u)[1..] == t[1..] + [d] + u;
      assert [t[0]] + t[1..] == t;
    }
  }

  /** Drops trailing empty fields (the limit-zero behaviour of String.split). */
  function DropTrailingEmpty(fields: seq<string>): (r: seq<string>)
    ensures |r| <= |fields|
  {
    if fields != [] && fields[|fields| - 1] == [] then DropTrailingEmpty(fields[..|fields| - 1])
    else fields
  }

  /** The result is a prefix of the input that ends in a non-empty field or is empty, and only
      empty fields were dropped. */
  lemma {:induction false} DropTrailingEmptySpec(fields: seq<string>)
    ensures var r := DropTrailingEmpty(fields);
      && r == fields[..|r|]
      && (r == [] || r[|r| - 1] != [])
      && forall k :: |r| <= k < |fields| ==> fields[k] == []
  {
    if fields != [] && fields[|fields| - 1] == [] {
      var shorter := fields[..|fields| - 1];
      DropTrailingEmptySpec(shorter);
      var r := DropTrailingEmpty(fields);
      assert shorter[..|r|] == fields[..|r|];
      forall k | |r| <= k < |fields| - 1 ensures fields[k] == [] {
        assert fields[k] == shorter[k];
      }
    }
  }

  /** String.split with a one-char delimiter and limit zero: a string without the delimiter comes
      back whole (even the empty string); otherwise the fields with trailing empty ones removed
      (a leading empty field is kept). */
  function Split(s: string, d: char): seq<string> {
    if d !in s then [s] else DropTrailingEmpty(Fields(s, d))
  }

  /** No delimiter: one field, the whole input. */
  lemma SplitWithoutDelimiter(s: string, d: char)
    requires d !in s
    ensures Split(s, d) == [s]
  {
  }

  /** `t<d>m` followed by nothing or by `<d>...`: the first two fields are `t` and `m`, as long as
      `m` is not empty (an empty last field would be dropped). */
  lemma SplitFirstTwo(t: string, d: char, m: string, tail: string)
    requires d !in t && d !in m && m != []
    requires tail == [] || tail[0] == d
    ensures |Split(t + [d] + m + tail, d)| >= 2
    ensures Split(t + [d] + m + tail, d)[0] == t
    ensures Split(t + [d] + m + tail, d)[1] == m
  {
    var s := t + [d] + m + tail;
    assert s[|t|] == d;
    FieldsAtDelimiter(t, d, m + tail);
    assert s == t + [d] + (m + tail);
    if tail == [] {
      FieldsWithoutDelimiter(m, d);
      assert m + tail == m;
      assert Fields(s, d) == [t, m];
    } else {
      FieldsAtDelimiter(m, d, tail[1..]);
      assert m + tail == m + [d] + tail[1..];
      assert Fields(s, d)[..2] == [t, m];
    }
    var r := DropTrailingEmpty(Fields(s, d));
    DropTrailingEmptySpec(Fields(s, d));
    assert Fields(s, d)[1] == m;
    assert |r| >= 2;
  }

  /** `t<d>` with no other delimiter splits into fewer than two fields: the empty field after the
      delimiter is dropped. */
  lemma SplitTrailingDelimiter(t: string, d: char)
    requires d !in t
    ensures |Split(t + [d], d)| < 2
  {
    var s := t + [d];
    assert s[|t|] == d;
    FieldsAtDelimiter(t, d, []);
    assert t + [d] + [] == s;
    assert Fields(s, d) == [t, []];
  }
}
