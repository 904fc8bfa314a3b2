/**
 * The pieces of java.lang.String that the roster relies on, over ASCII:
 * trim, split with a negative limit, toLowerCase, equalsIgnoreCase and
 * CASE_INSENSITIVE_ORDER, plus the comma join that Student.toCsv performs.
 */
module Text {

  // ---------------------------------------------------------------- trim

  /** A character that String.trim removes: any code point up to U+0020. */
  predicate IsTrimmable(c: char) {
    c <= ' '
  }

  function TrimStart(s: string): (r: string)
    ensures |r| <= |s|
    ensures r == [] || !IsTrimmable(r[0])
  {
    if s != [] && IsTrimmable(s[0]) then TrimStart(s[1..]) else s
  }

  /** What TrimStart leaves is a suffix of its input, and only trimmable characters precede it. */
  lemma {:induction false} TrimStartIsSuffix(s: string)
    ensures TrimStart(s) == s[|s| - |TrimStart(s)|..]
    ensures forall k :: 0 <= k < |s| - |TrimStart(s)| ==> IsTrimmable(s[k])
  {
    if s != [] && IsTrimmable(s[0]) {
      TrimStartIsSuffix(s[1..]);
      assert forall k :: 1 <= k < |s| ==> s[k] == s[1..][k - 1];
    }
  }

  function TrimEnd(s: string): (r: string)
    ensures |r| <= |s|
    ensures r == [] || !IsTrimmable(r[|r| - 1])
  {
    if s != [] && IsTrimmable(s[|s| - 1]) then TrimEnd(s[..|s| - 1]) else s
  }

  /** What TrimEnd leaves is a prefix of its input, and only trimmable characters follow it. */
  lemma {:induction false} TrimEndIsPrefix(s: string)
    ensures TrimEnd(s) == s[..|TrimEnd(s)|]
    ensures forall k :: |TrimEnd(s)| <= k < |s| ==> IsTrimmable(s[k])
  {
    if s != [] && IsTrimmable(s[|s| - 1]) {
      TrimEndIsPrefix(s[..|s| - 1]);
    }
  }

  /** String.trim: the longest infix that neither starts nor ends with a trimmable character. */
  function Trim(s: string): (r: string)
    ensures |r| <= |s|
    ensures r == [] || (!IsTrimmable(r[0]) && !IsTrimmable(r[|r| - 1]))
    ensures exists i, j ::
              && 0 <= i <= j <= |s| && r == s[i..j]
              && (forall k :: 0 <= k < i ==> IsTrimmable(s[k]))
              && (forall k :: j <= k < |s| ==> IsTrimmable(s[k]))
  {
    TrimEndIsPrefix(TrimStart(s));
    TrimBounds(s);
    TrimEnd(TrimStart(s))
  }

  /** TrimEnd(TrimStart(s)) is s cut at |s| - |TrimStart(s)| and where TrimEnd stops. */
  lemma TrimBounds(s: string)
    ensures var i := |s| - |TrimStart(s)|;
      var j := i + |TrimEnd(TrimStart(s))|;
      && 0 <= i <= j <= |s| && TrimEnd(TrimStart(s)) == s[i..j]
      && (forall k :: 0 <= k < i ==> IsTrimmable(s[k]))
      && (forall k :: j <= k < |s| ==> IsTrimmable(s[k]))
  {
    var t := TrimStart(s);
    TrimStartIsSuffix(s);
    TrimEndIsPrefix(t);
    SuffixPrefix(s, |s| - |t|, t, TrimEnd(t));
  }

  /** A prefix u of the suffix t of s, with trimmable characters after u in t, is an infix of s followed by trimmable characters. */
  lemma SuffixPrefix(s: string, i: nat, t: string, u: string)
    requires i <= |s| && t == s[i..] && |u| <= |t| && u == t[..|u|]
    requires forall k :: |u| <= k < |t| ==> IsTrimmable(t[k])
    ensures u == s[i..i + |u|]
    ensures forall k :: i + |u| <= k < |s| ==> IsTrimmable(s[k])
  {
    forall k | i + |u| <= k < |s|
      ensures IsTrimmable(s[k])
    {
      assert s[k] == t[k - i];
    }
  }

  /** Trimming only removes characters: whatever the trim holds, the string held. */
  lemma TrimKeeps(s: string, c: char)
    requires c in Trim(s)
    ensures c in s
  {
    var t := TrimStart(s);
    TrimStartIsSuffix(s);
    TrimEndIsPrefix(t);
    assert c in t[..|Trim(s)|];
    assert c in s[|s| - |t|..];
  }

  /** A string that holds nothing but trimmable characters. */
  predicate IsBlank(s: string) {
    forall k :: 0 <= k < |s| ==> IsTrimmable(s[k])
  }

  /** A string trims to nothing exactly when it is blank. */
  lemma TrimEmptyIffBlank(s: string)
    ensures Trim(s) == [] <==> IsBlank(s)
  {
    var i, j :| && 0 <= i <= j <= |s| && Trim(s) == s[i..j]
                && (forall k :: 0 <= k < i ==> IsTrimmable(s[k]))
                && (forall k :: j <= k < |s| ==> IsTrimmable(s[k]));
    if Trim(s) != [] {
      assert s[i] == Trim(s)[0];
    }
  }

  /** A string is its own trim exactly when neither end is trimmable. */
  lemma TrimFixedPoint(s: string)
    ensures Trim(s) == s <==> (s == [] || (!IsTrimmable(s[0]) && !IsTrimmable(s[|s| - 1])))
  {
  }

  lemma TrimIdempotent(s: string)
    ensures Trim(Trim(s)) == Trim(s)
  {
    TrimFixedPoint(Trim(s));
  }

  // ------------------------------------------------------- split and join

  /**
   * String.split(d, -1) for a one-character delimiter: every field between
   * delimiters, leading and trailing empty fields kept; "" splits into [""].
   */
  function Split(s: string, d: char): (r: seq<string>)
    ensures |r| >= 1
    ensures forall f :: f in r ==> d !in f
  {
    if s == [] then [""]
    else
      var rest := Split(s[1..], d);
      if s[0] == d then [""] + rest
      else
        assert rest[0] in rest;
        [[s[0]] + rest[0]] + rest[1..]
  }

  /** The fields separated by single delimiters, as Student.toCsv concatenates them. */
  function Join(fields: seq<string>, d: char): (r: string)
    requires |fields| >= 1
  {
    if |fields| == 1 then fields[0] else fields[0] + [d] + Join(fields[1..], d)
  }

  /** Joining the fields of a split gives back the original string. */
  lemma {:induction false} JoinSplit(s: string, d: char)
    ensures Join(Split(s, d), d) == s
  {
    if s != [] {
      assert s == [s[0]] + s[1..];
      JoinSplit(s[1..], d);
      if s[0] == d {
        JoinLeadingEmpty(Split(s[1..], d), d);
      } else {
        JoinExtendFirst([s[0]], Split(s[1..], d), d);
      }
    }
  }

  /** An empty first field adds a leading delimiter to the join. */
  lemma JoinLeadingEmpty(fields: seq<string>, d: char)
    requires |fields| >= 1
    ensures Join([""] + fields, d) == [d] + Join(fields, d)
  {
    assert ([""] + fields)[1..] == fields;
    assert "" + [d] + Join(fields, d) == [d] + Join(fields, d);
  }

  /** Extending the first field by h in front extends the join by h in front. */
  lemma JoinExtendFirst(h: string, fields: seq<string>, d: char)
    requires |fields| >= 1
    ensures Join([h + fields[0]] + fields[1..], d) == h + Join(fields, d)
  {
    assert ([h + fields[0]] + fields[1..])[1..] == fields[1..];
    if |fields| > 1 {
      var rest := Join(fields[1..], d);
      assert (h + fields[0]) + [d] + rest == h + (fields[0] + [d] + rest);
    }
  }

  lemma {:induction false} SplitPrefix(a: string, t: string, d: char)
    requires d !in a
    ensures Split(a + t, d) == [a + Split(t, d)[0]] + Split(t, d)[1..]
  {
    if a == [] {
      assert a + t == t;
      assert a + Split(t, d)[0] == Split(t, d)[0];
      assert [Split(t, d)[0]] + Split(t, d)[1..] == Split(t, d);
    } else {
      assert (a + t)[1..] == a[1..] + t;
      SplitPrefix(a[1..], t, d);
      assert [a[0]] + (a[1..] + Split(t, d)[0]) == a + Split(t, d)[0];
    }
  }

  /** Splitting joined fields gives back the fields when none contains the delimiter. */
  lemma {:induction false} SplitJoin(fields: seq<string>, d: char)
    requires |fields| >= 1
    requires forall f :: f in fields ==> d !in f
    ensures Split(Join(fields, d), d) == fields
  {
    if |fields| == 1 {
      SplitPrefix(fields[0], "", d);
      assert fields[0] + "" == fields[0];
    } else {
      forall f | f in fields[1..] ensures d !in f {
        assert f in fields;
      }
      SplitJoin(fields[1..], d);
      assert fields[0] in fields;
      SplitJoinStep(fields[0], Join(fields[1..], d), d);
      assert [fields[0]] + fields[1..] == fields;
    }
  }

  /** A delimiter-free field in front of a string adds that field in front of its split. */
  lemma SplitJoinStep(head: string, tail: string, d: char)
    requires d !in head
    ensures Split(head + [d] + tail, d) == [head] + Split(tail, d)
  {
    assert head + [d] + tail == head + ([d] + tail);
    var st := Split([d] + tail, d);
    SplitLeadingDelimiter(tail, d);
    assert st[0] == "" && st[1..] == Split(tail, d);
    assert head + st[0] == head;
    SplitPrefix(head, [d] + tail, d);
  }

  /** A character the string lacks is in none of its fields. */
  lemma {:induction false} SplitKeeps(s: string, d: char, c: char)
    requires c !in s
    ensures forall f :: f in Split(s, d) ==> c !in f
  {
    if s != [] {
      SplitKeeps(s[1..], d, c);
      var rest := Split(s[1..], d);
      if s[0] != d {
        assert rest[0] in rest;
        assert forall f :: f in rest[1..] ==> f in rest;
      }
    }
  }

  /** A leading delimiter adds one empty field in front. */
  lemma SplitLeadingDelimiter(t: string, d: char)
    ensures Split([d] + t, d) == [""] + Split(t, d)
  {
    assert ([d] + t)[1..] == t;
  }

  // ------------------------------------------------------------------ case

  /** Character.toLowerCase restricted to ASCII. */
  function LowerChar(c: char): char {
    if 'A' <= c <= 'Z' then (c as int + 32) as char else c
  }

  /** String.toLowerCase restricted to ASCII: the key of the by-name index. */
  function Lower(s: string): (r: string)
    ensures |r| == |s| && forall i :: 0 <= i < |s| ==> r[i] == LowerChar(s[i])
  {
    seq(|s|, i requires 0 <= i < |s| => LowerChar(s[i]))
  }

  /**
   * String.equalsIgnoreCase over ASCII: equal lengths and equal characters up
   * to case; over ASCII that is equality of the toLowerCase forms.
   */
  predicate EqualsIgnoreCase(a: string, b: string): (r: bool)
    ensures r <==> Lower(a) == Lower(b)
  {
    assert |a| == |b| && (forall i :: 0 <= i < |a| ==> LowerChar(a[i]) == LowerChar(b[i]))
      ==> forall i :: 0 <= i < |a| ==> Lower(a)[i] == Lower(b)[i];
    |a| == |b| && forall i :: 0 <= i < |a| ==> LowerChar(a[i]) == LowerChar(b[i])
  }

  // ----------------------------------------------------------------- order

  /** Lexicographic order on character codes; a proper prefix comes first. */
  predicate LexLe(a: string, b: string) {
    a == [] || (b != [] && (a[0] < b[0] || (a[0] == b[0] && LexLe(a[1..], b[1..]))))
  }

  lemma {:induction false} LexLeTotal(a: string, b: string)
    ensures LexLe(a, b) || LexLe(b, a)
  {
    if a != [] && b != [] && a[0] == b[0] {
      LexLeTotal(a[1..], b[1..]);
    }
  }

  lemma {:induction false} LexLeTransitive(a: string, b: string, c: string)
    requires LexLe(a, b) && LexLe(b, c)
    ensures LexLe(a, c)
  {
    if a != [] && a[0] == b[0] && b[0] == c[0] {
      LexLeTransitive(a[1..], b[1..], c[1..]);
    }
  }

  lemma {:induction false} LexLeAntisymmetric(a: string, b: string)
    requires LexLe(a, b) && LexLe(b, a)
    ensures a == b
  {
    if a != [] {
      LexLeAntisymmetric(a[1..], b[1..]);
      assert a == [a[0]] + a[1..] && b == [b[0]] + b[1..];
    }
  }

  lemma {:induction false} LexLeReflexive(a: string)
    ensures LexLe(a, a)
  {
    if a != [] {
      LexLeReflexive(a[1..]);
    }
  }

  /** LexLe ranks a first exactly when a is a prefix of b or a is smaller at the first position where they differ. */
  lemma {:induction false} LexLeIff(a: string, b: string)
    ensures LexLe(a, b) <==> || (|a| <= |b| && a == b[..|a|])
                             || exists k :: 0 <= k < |a| && k < |b| && a[..k] == b[..k] && a[k] < b[k]
  {
    if a == [] || b == [] {
    } else if a[0] < b[0] {
      assert a[..0] == b[..0];
    } else if a[0] > b[0] {
      forall k | 0 <= k < |a| && k < |b| && a[..k] == b[..k]
        ensures a[k] >= b[k]
      {
        SameHeads(a, b, k);
      }
      SameHeads(a, b, |a|);
    } else {
      LexLeIff(a[1..], b[1..]);
      PrefixDropHead(a, b);
      DifferenceDropHead(a, b);
    }
  }

  /** With equal first characters, one string is a prefix of the other exactly when their tails are. */
  lemma PrefixDropHead(a: string, b: string)
    requires a != [] && b != [] && a[0] == b[0]
    ensures (|a| <= |b| && a == b[..|a|]) <==> (|a[1..]| <= |b[1..]| && a[1..] == b[1..][..|a[1..]|])
  {
    var a', b' := a[1..], b[1..];
    assert a == [a[0]] + a' && b == [b[0]] + b';
    if |a| <= |b| {
      assert b[..|a|] == [b[0]] + b'[..|a'|];
    }
  }

  /** With equal first characters, two strings first differ upwards exactly when their tails do. */
  lemma DifferenceDropHead(a: string, b: string)
    requires a != [] && b != [] && a[0] == b[0]
    ensures (exists k :: 0 <= k < |a| && k < |b| && a[..k] == b[..k] && a[k] < b[k])
        <==> (exists k :: 0 <= k < |a[1..]| && k < |b[1..]| && a[1..][..k] == b[1..][..k] && a[1..][k] < b[1..][k])
  {
    var a', b' := a[1..], b[1..];
    forall k | 0 < k <= |a| && k <= |b|
      ensures a[..k] == b[..k] <==> a'[..k - 1] == b'[..k - 1]
    {
      assert a[..k] == [a[0]] + a'[..k - 1] && b[..k] == [b[0]] + b'[..k - 1];
    }
    if exists k :: 0 <= k < |a| && k < |b| && a[..k] == b[..k] && a[k] < b[k] {
      var k :| 0 <= k < |a| && k < |b| && a[..k] == b[..k] && a[k] < b[k];
      assert a'[k - 1] < b'[k - 1];
    }
    if exists k :: 0 <= k < |a'| && k < |b'| && a'[..k] == b'[..k] && a'[k] < b'[k] {
      var k :| 0 <= k < |a'| && k < |b'| && a'[..k] == b'[..k] && a'[k] < b'[k];
      assert a[..k + 1] == b[..k + 1];
      assert a[k + 1] < b[k + 1];
    }
  }

  /** Two strings that agree on a non-empty prefix start with the same character. */
  lemma SameHeads(a: string, b: string, k: nat)
    ensures 0 < k <= |a| && k <= |b| && a[..k] == b[..k] ==> a[0] == b[0]
  {
    if 0 < k <= |a| && k <= |b| && a[..k] == b[..k] {
      assert a[0] == a[..k][0];
    }
  }

  /**
   * String.CASE_INSENSITIVE_ORDER over ASCII, as "compare(a, b) <= 0": the
   * first differing character after case folding decides, else the shorter.
   */
  predicate NoCaseLe(a: string, b: string): (r: bool)
    ensures var la, lb := Lower(a), Lower(b);
      r <==> || (|la| <= |lb| && la == lb[..|la|])
             || exists k :: 0 <= k < |la| && k < |lb| && la[..k] == lb[..k] && la[k] < lb[k]
  {
    LexLeIff(Lower(a), Lower(b));
    LexLe(Lower(a), Lower(b))
  }

  lemma NoCaseLeTotalPreorder()
    ensures forall a, b :: NoCaseLe(a, b) || NoCaseLe(b, a)
    ensures forall a, b, c :: NoCaseLe(a, b) && NoCaseLe(b, c) ==> NoCaseLe(a, c)
  {
    forall a, b ensures NoCaseLe(a, b) || NoCaseLe(b, a) {
      LexLeTotal(Lower(a), Lower(b));
    }
    forall a, b, c | NoCaseLe(a, b) && NoCaseLe(b, c) ensures NoCaseLe(a, c) {
      LexLeTransitive(Lower(a), Lower(b), Lower(c));
    }
  }

  /** CASE_INSENSITIVE_ORDER ranks two strings equal exactly when they are equal ignoring case. */
  lemma NoCaseTie(a: string, b: string)
    ensures NoCaseLe(a, b) && NoCaseLe(b, a) <==> EqualsIgnoreCase(a, b)
  {
    LexLeReflexive(Lower(a));
    if NoCaseLe(a, b) && NoCaseLe(b, a) {
      LexLeAntisymmetric(Lower(a), Lower(b));
    }
  }
}
