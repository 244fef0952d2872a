// Strings: splitting, joining, trimming and Go's ordering of strings.
module Text {

  function Split(s: string, sep: char): (parts: seq<string>)
    ensures |parts| > 0
  {
    if s == "" then [""]
    else
      var rest := Split(s[1..], sep);
      if s[0] == sep then [""] + rest else [[s[0]] + rest[0]] + rest[1..]
  }

  function Join(parts: seq<string>, sep: char): string {
    if parts == [] then ""
    else if |parts| == 1 then parts[0]
    else parts[0] + [sep] + Join(parts[1..], sep)
  }

  predicate Free(s: string, c: char) {
    c !in s
  }

  predicate AllFree(parts: seq<string>, c: char) {
    forall i | 0 <= i < |parts| :: Free(parts[i], c)
  }

  lemma {:induction false} JoinSplit(s: string, sep: char)
    ensures Join(Split(s, sep), sep) == s
  {
    if s != "" {
      JoinSplit(s[1..], sep);
      var rest := Split(s[1..], sep);
      assert s == [s[0]] + s[1..];
      if s[0] == sep {
        assert ([""] + rest)[1..] == rest;
      } else {
        assert ([[s[0]] + rest[0]] + rest[1..])[1..] == rest[1..];
      }
    }
  }

  lemma {:induction false} SplitFree(s: string, sep: char)
    ensures AllFree(Split(s, sep), sep)
  {
    if s != "" {
      SplitFree(s[1..], sep);
    }
  }

  lemma {:induction false} SplitFreeOne(s: string, sep: char)
    requires Free(s, sep)
    ensures Split(s, sep) == [s]
  {
    if s != "" {
      SplitFreeOne(s[1..], sep);
      assert s == [s[0]] + s[1..];
    }
  }

  /** A separator-free head is completed by the first part of what follows it. */
  lemma {:induction false} SplitHead(head: string, s: string, sep: char)
    requires Free(head, sep)
    ensures Split(head + s, sep) == [head + Split(s, sep)[0]] + Split(s, sep)[1..]
  {
    if head == "" {
      assert head + s == s && head + Split(s, sep)[0] == Split(s, sep)[0];
    } else {
      SplitHead(head[1..], s, sep);
      assert (head + s)[1..] == head[1..] + s;
      assert [head[0]] + (head[1..] + Split(s, sep)[0]) == head + Split(s, sep)[0];
    }
  }

  lemma SplitCons(head: string, s: string, sep: char)
    requires Free(head, sep)
    ensures Split(head + [sep] + s, sep) == [head] + Split(s, sep)
  {
    SplitHead(head, [sep] + s, sep);
    assert ([sep] + s)[1..] == s;
    assert head + [sep] + s == head + ([sep] + s);
    assert head + "" == head;
  }

  lemma {:induction false} SplitJoin(parts: seq<string>, sep: char)
    requires parts != [] && AllFree(parts, sep)
    ensures Split(Join(parts, sep), sep) == parts
  {
    if |parts| == 1 {
      SplitFreeOne(parts[0], sep);
    } else {
      SplitJoin(parts[1..], sep);
      SplitCons(parts[0], Join(parts[1..], sep), sep);
    }
  }

  /** Joining with another separator keeps a character out. */
  lemma {:induction false} JoinFree(parts: seq<string>, sep: char, c: char)
    requires AllFree(parts, c) && sep != c
    ensures Free(Join(parts, sep), c)
  {
    if |parts| > 1 {
      JoinFree(parts[1..], sep, c);
    }
  }

  predicate IsDigit(c: char) {
    '0' <= c <= '9'
  }

  // ----- order

  /** Go's `<` on strings. */
  predicate Less(a: string, b: string) {
    if b == "" then false
    else if a == "" then true
    else a[0] < b[0] || (a[0] == b[0] && Less(a[1..], b[1..]))
  }

  lemma {:induction false} LessConcat(a: string, a': string, b: string, b': string)
    requires |a| == |b|
    ensures Less(a + a', b + b') <==> Less(a, b) || (a == b && Less(a', b'))
  {
    if a == "" {
      assert a + a' == a' && b + b' == b';
    } else {
      LessConcat(a[1..], a', b[1..], b');
      assert (a + a')[1..] == a[1..] + a' && (b + b')[1..] == b[1..] + b';
      assert a == [a[0]] + a[1..] && b == [b[0]] + b[1..];
    }
  }

  // ----- spaces

  /** Unicode white space, as unicode.IsSpace. */
  predicate IsSpace(c: char) {
    || '\t' <= c <= '\r' || c == ' ' || c == '\U{85}' || c == '\U{A0}' || c == '\U{1680}'
    || '\U{2000}' <= c <= '\U{200A}' || c == '\U{2028}' || c == '\U{2029}' || c == '\U{202F}'
    || c == '\U{205F}' || c == '\U{3000}'
  }

  predicate Blank(s: string) {
    forall i | 0 <= i < |s| :: IsSpace(s[i])
  }

  function TrimLeft(s: string): string {
    if s != "" && IsSpace(s[0]) then TrimLeft(s[1..]) else s
  }

  function TrimRight(s: string): string {
    if s != "" && IsSpace(s[|s| - 1]) then TrimRight(s[..|s| - 1]) else s
  }

  function TrimSpace(s: string): string {
    TrimRight(TrimLeft(s))
  }

  predicate Solid(s: string) {
    s != "" && !IsSpace(s[0]) && !IsSpace(s[|s| - 1])
  }

  lemma {:induction false} TrimLeftBlank(pad: string, s: string)
    requires Blank(pad)
    ensures TrimLeft(pad + s) == TrimLeft(s)
  {
    if pad == "" {
      assert pad + s == s;
    } else {
      TrimLeftBlank(pad[1..], s);
      assert (pad + s)[1..] == pad[1..] + s;
    }
  }

  lemma {:induction false} TrimRightBlank(s: string, pad: string)
    requires Blank(pad)
    ensures TrimRight(s + pad) == TrimRight(s)
  {
    if pad == "" {
      assert s + pad == s;
    } else {
      TrimRightBlank(s, pad[..|pad| - 1]);
      assert (s + pad)[..|s + pad| - 1] == s + pad[..|pad| - 1];
    }
  }

  lemma TrimPadded(left: string, s: string, right: string)
    requires Blank(left) && Blank(right) && Solid(s)
    ensures TrimSpace(left + s + right) == s
  {
    assert left + s + right == left + (s + right);
    TrimLeftBlank(left, s + right);
    assert (s + right)[0] == s[0];
    TrimRightBlank(s, right);
  }

  lemma TrimBlank(s: string)
    requires Blank(s)
    ensures TrimSpace(s) == ""
  {
    assert s + "" == s;
    TrimLeftBlank(s, "");
  }
}
