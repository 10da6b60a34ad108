/** The name normaliser: the comparison key of a note name or link target
    (_normalize_text_for_linking in src/main.py). */
module Keys {
  import opened Text

  /** A character of the class [a-z0-9]. */
  predicate IsKeyChar(c: char) {
    'a' <= c <= 'z' || '0' <= c <= '9'
  }

  predicate NoDoubleSpaceAt(s: string, i: int)
    requires 0 <= i < |s| - 1
  {
    s[i] == ' ' ==> s[i + 1] != ' '
  }

  predicate KeyAfterSpaceAt(s: string, i: int)
    requires 0 <= i < |s| - 1
  {
    s[i] == ' ' ==> IsKeyChar(s[i + 1])
  }

  /** A well-formed key: words of [a-z0-9] separated by single spaces, with
      no space at either end. */
  predicate IsKey(s: string) {
    && (forall i :: 0 <= i < |s| ==> IsKeyChar(s[i]) || s[i] == ' ')
    && (forall i :: 0 <= i < |s| - 1 ==> NoDoubleSpaceAt(s, i))
    && (s != [] ==> s[0] != ' ' && s[|s| - 1] != ' ')
  }

  /** Text made of [a-z0-9] and spaces in which every space is followed by
      a [a-z0-9] character or ends the text. */
  predicate Separated(s: string) {
    && (forall i :: 0 <= i < |s| ==> IsKeyChar(s[i]) || s[i] == ' ')
    && (forall i :: 0 <= i < |s| - 1 ==> KeyAfterSpaceAt(s, i))
  }

  /** re.sub(r'[^a-z0-9]+', ' ', s): every maximal run of characters outside
      [a-z0-9] becomes one space. Read left to right, a character outside
      [a-z0-9] is dropped while the run goes on and becomes the space at the
      run's last character. */
  function Squash(s: string): (r: string)
    ensures Separated(r)
    ensures s != [] && IsKeyChar(s[0]) ==> r != [] && r[0] == s[0]
  {
    if s == [] then []
    else if IsKeyChar(s[0]) then
      var rest := Squash(s[1..]);
      SeparatedCons(s[0], rest);
      [s[0]] + rest
    else if |s| > 1 && !IsKeyChar(s[1]) then
      Squash(s[1..])
    else
      var rest := Squash(s[1..]);
      SeparatedCons(' ', rest);
      " " + rest
  }

  lemma SeparatedCons(c: char, t: string)
    requires Separated(t)
    requires IsKeyChar(c) || c == ' '
    requires c == ' ' && t != [] ==> IsKeyChar(t[0])
    ensures Separated([c] + t)
  {
    var s := [c] + t;
    forall i | 0 <= i < |s| - 1 ensures KeyAfterSpaceAt(s, i) {
      if i > 0 {
        assert KeyAfterSpaceAt(t, i - 1);
      }
    }
  }

  /** _normalize_text_for_linking: lower-case, squash the separator runs,
      strip. */
  function Normalize(text: string): (r: string)
  {
    Strip(Squash(Lower(text)))
  }

  /** The normaliser always yields a well-formed key: only [a-z0-9] and
      single spaces, with no space at either end. */
  lemma NormalizeIsKey(text: string)
    ensures IsKey(Normalize(text))
  {
    StripSeparated(Squash(Lower(text)));
  }

  lemma StripSeparated(s: string)
    requires Separated(s)
    ensures IsKey(Strip(s))
  {
    StripSlice(s);
    var a := |s| - |LStrip(s)|;
    var b := a + |Strip(s)|;
    if a < b {
      assert s[a] == Strip(s)[0] && s[b - 1] == Strip(s)[|Strip(s)| - 1];
    }
    SliceOfSeparated(s, a, b);
  }

  /** A slice of separated text with no space at either end is a key. */
  lemma SliceOfSeparated(s: string, a: int, b: int)
    requires Separated(s)
    requires 0 <= a <= b <= |s|
    requires a < b ==> s[a] != ' ' && s[b - 1] != ' '
    ensures IsKey(s[a..b])
  {
    var r := s[a..b];
    forall i | 0 <= i < |r| - 1 ensures NoDoubleSpaceAt(r, i) {
      assert KeyAfterSpaceAt(s, a + i);
    }
  }

  lemma SeparatedTail(s: string)
    requires Separated(s) && s != []
    ensures Separated(s[1..])
    ensures s[0] == ' ' && |s| > 1 ==> IsKeyChar(s[1])
  {
    var t := s[1..];
    forall i | 0 <= i < |t| - 1 ensures KeyAfterSpaceAt(t, i) {
      assert KeyAfterSpaceAt(s, i + 1);
    }
    if |s| > 1 {
      assert KeyAfterSpaceAt(s, 0);
    }
  }

  lemma {:induction false} LowerFixed(s: string)
    requires forall i :: 0 <= i < |s| ==> LowerChar(s[i]) == [s[i]]
    ensures Lower(s) == s
  {
    if s != [] {
      LowerFixed(s[1..]);
    }
  }

  lemma {:induction false} SquashOfSeparated(s: string)
    requires Separated(s)
    ensures Squash(s) == s
  {
    if s != [] {
      SeparatedTail(s);
      SquashOfSeparated(s[1..]);
      if !IsKeyChar(s[0]) {
        assert s == " " + s[1..];
      }
    }
  }

  /** strip() never removes a key character (used by StripOfKey and
      StripKeepsKeyChars). */
  lemma KeyCharNotSpace(c: char)
    requires IsKeyChar(c)
    ensures !IsSpace(c)
  {
  }

  lemma StripOfKey(s: string)
    requires IsKey(s)
    ensures Strip(s) == s
  {
    if s != [] {
      KeyCharNotSpace(s[0]);
      KeyCharNotSpace(s[|s| - 1]);
    }
    StripUnchanged(s);
  }

  /** A well-formed key is a fixed point of the normaliser. */
  lemma NormalizeFixedPoint(s: string)
    requires IsKey(s)
    ensures Normalize(s) == s
  {
    LowerFixed(s);
    forall i | 0 <= i < |s| - 1 ensures KeyAfterSpaceAt(s, i) {
      assert NoDoubleSpaceAt(s, i);
    }
    SquashOfSeparated(s);
    StripOfKey(s);
  }

  /** Normalising twice is normalising once. */
  lemma NormalizeIdempotent(s: string)
    ensures Normalize(Normalize(s)) == Normalize(s)
  {
    NormalizeIsKey(s);
    NormalizeFixedPoint(Normalize(s));
  }

  /** Names whose characters pairwise differ only in letter case (such as
      "My Note" and "MY NOTE") normalise to the same key. */
  lemma NormalizeIgnoresCase(s: string, t: string)
    requires |s| == |t|
    requires forall i :: 0 <= i < |s| ==> LowerChar(s[i]) == LowerChar(t[i])
    ensures Normalize(s) == Normalize(t)
  {
    LowerAgrees(s, t);
  }

  /** The [a-z0-9] characters of a text, in order. */
  function KeyChars(s: string): (r: string)
  {
    if s == [] then [] else (if IsKeyChar(s[0]) then [s[0]] else []) + KeyChars(s[1..])
  }

  lemma {:induction false} KeyCharsAppend(a: string, b: string)
    ensures KeyChars(a + b) == KeyChars(a) + KeyChars(b)
  {
    if a == [] {
      assert a + b == b;
    } else {
      assert (a + b)[0] == a[0] && (a + b)[1..] == a[1..] + b;
      KeyCharsAppend(a[1..], b);
      var head := if IsKeyChar(a[0]) then [a[0]] else [];
      assert KeyChars(a + b) == head + KeyChars(a[1..] + b);
      assert KeyChars(a) == head + KeyChars(a[1..]);
      assert head + (KeyChars(a[1..]) + KeyChars(b)) == (head + KeyChars(a[1..])) + KeyChars(b);
    }
  }

  lemma {:induction false} KeyCharsNone(s: string)
    requires forall i :: 0 <= i < |s| ==> !IsKeyChar(s[i])
    ensures KeyChars(s) == []
  {
    if s != [] {
      KeyCharsNone(s[1..]);
    }
  }

  lemma {:induction false} KeyCharsSquash(s: string)
    ensures KeyChars(Squash(s)) == KeyChars(s)
  {
    if s != [] {
      KeyCharsSquash(s[1..]);
      if IsKeyChar(s[0]) {
        KeyCharsAppend([s[0]], Squash(s[1..]));
      } else if |s| == 1 || IsKeyChar(s[1]) {
        KeyCharsAppend(" ", Squash(s[1..]));
      }
    }
  }

  lemma StripKeepsKeyChars(s: string)
    ensures KeyChars(Strip(s)) == KeyChars(s)
  {
    StripSlice(s);
    LStripSpec(s);
    RStripSpec(LStrip(s));
    var l := LStrip(s);
    var r := Strip(s);
    var a := |s| - |l|;
    SplitThree(s, a, a + |r|);
    var head, tail := s[..a], s[a + |r|..];
    forall i | 0 <= i < |head| ensures !IsKeyChar(head[i]) {
      assert IsSpace(s[i]);
    }
    forall i | 0 <= i < |tail| ensures !IsKeyChar(tail[i]) {
      assert tail[i] == l[|r| + i];
      assert IsSpace(l[|r| + i]);
    }
    KeyCharsNone(head);
    KeyCharsNone(tail);
    KeyCharsAppend(head, r);
    KeyCharsAppend(head + r, tail);
  }

  /** The normaliser keeps every letter and digit of the lower-cased name,
      in order, and adds none. */
  lemma NormalizeKeepsKeyChars(text: string)
    ensures KeyChars(Normalize(text)) == KeyChars(Lower(text))
  {
    var t := Lower(text);
    KeyCharsSquash(t);
    StripKeepsKeyChars(Squash(t));
  }

  /** A run of separators up to a [a-z0-9] character, or up to the end,
      becomes exactly one space. */
  lemma {:induction false} SquashRun(sep: string, t: string)
    requires sep != [] && forall i :: 0 <= i < |sep| ==> !IsKeyChar(sep[i])
    requires t != [] ==> IsKeyChar(t[0])
    ensures Squash(sep + t) == " " + Squash(t)
  {
    var s := sep + t;
    assert s[0] == sep[0] && s[1..] == sep[1..] + t;
    if |sep| > 1 {
      assert s[1] == sep[1];
      SquashRun(sep[1..], t);
    } else {
      assert s[1..] == t;
    }
  }

  /** re.sub on "x, a separator run, y" is re.sub on x, one space, and
      re.sub on y, when the run is maximal (x ends and y starts with a
      [a-z0-9] character). */
  lemma {:induction false} SquashJoin(x: string, sep: string, y: string)
    requires x == [] || IsKeyChar(x[|x| - 1])
    requires sep != [] && forall i :: 0 <= i < |sep| ==> !IsKeyChar(sep[i])
    requires y != [] ==> IsKeyChar(y[0])
    ensures Squash(x + sep + y) == Squash(x) + " " + Squash(y)
  {
    var s := x + sep + y;
    if x == [] {
      assert s == sep + y;
      SquashRun(sep, y);
    } else {
      var t := x[1..];
      assert s[0] == x[0] && s[1..] == t + sep + y;
      SquashJoin(t, sep, y);
      var tail := Squash(t) + " " + Squash(y);
      assert Squash(s[1..]) == tail;
      if IsKeyChar(x[0]) {
        assert Squash(s) == [x[0]] + tail;
        assert Squash(x) == [x[0]] + Squash(t);
      } else {
        assert |x| > 1 && s[1] == x[1];
        if IsKeyChar(x[1]) {
          assert Squash(s) == " " + tail;
          assert Squash(x) == " " + Squash(t);
        } else {
          assert Squash(s) == tail;
          assert Squash(x) == Squash(t);
        }
      }
    }
  }

  lemma {:induction false} LowerOfLastKey(a: string)
    requires a != [] && IsKeyChar(a[|a| - 1])
    ensures var l := Lower(a); l != [] && l[|l| - 1] == a[|a| - 1]
  {
    var n := |a| - 1;
    assert a == a[..n] + [a[n]];
    LowerAppend(a[..n], [a[n]]);
  }

  lemma JoinedSquash(a: string, sep: string, b: string)
    requires Lower(a) != [] && IsKeyChar(Lower(a)[|Lower(a)| - 1])
    requires b != [] && IsKeyChar(b[0])
    requires sep != [] && forall i :: 0 <= i < |sep| ==> LowerChar(sep[i]) == [sep[i]] && !IsKeyChar(sep[i])
    ensures Squash(Lower(a + sep + b)) == Squash(Lower(a)) + " " + Squash(Lower(b))
  {
    LowerAppend(a + sep, b);
    LowerAppend(a, sep);
    LowerFixed(sep);
    assert b == [b[0]] + b[1..];
    LowerAppend([b[0]], b[1..]);
    SquashJoin(Lower(a), sep, Lower(b));
  }

  /** Names that differ only in the punctuation or whitespace run between
      two words (such as "my-note" and "my note") normalise to the same key.
      A separator here is a character outside [a-z0-9] that lower() leaves
      alone. */
  lemma NormalizeIgnoresPunctuation(a: string, sep1: string, sep2: string, b: string)
    requires a != [] && IsKeyChar(a[|a| - 1])
    requires b != [] && IsKeyChar(b[0])
    requires sep1 != [] && forall i :: 0 <= i < |sep1| ==> LowerChar(sep1[i]) == [sep1[i]] && !IsKeyChar(sep1[i])
    requires sep2 != [] && forall i :: 0 <= i < |sep2| ==> LowerChar(sep2[i]) == [sep2[i]] && !IsKeyChar(sep2[i])
    ensures Normalize(a + sep1 + b) == Normalize(a + sep2 + b)
  {
    LowerOfLastKey(a);
    JoinedSquash(a, sep1, b);
    JoinedSquash(a, sep2, b);
  }
}
