/**
 * Escaping by replacement tables: a table is an ordered map from a literal
 * key to its replacement; escaping replaces every occurrence of each key in
 * table order, and unescaping escapes with the flipped table.
 */
module Escapes {
  import JsString

  datatype Replacement = Replacement(key: string, value: string)

  /** An immutable Map of replacements, in insertion order, keys unique. */
  type Replacements = seq<Replacement>

  predicate HasKey(m: Replacements, k: string) {
    exists i :: 0 <= i < |m| && m[i].key == k
  }

  /** `map.set(k, v)`: an existing key keeps its position, a new one goes last. */
  function Put(m: Replacements, k: string, v: string): Replacements {
    if |m| == 0 then [Replacement(k, v)]
    else if m[0].key == k then [Replacement(k, v)] + m[1..]
    else [m[0]] + Put(m[1..], k, v)
  }

  /** `map.merge(other)`: the entries of `other` set in order. */
  function Merge(m: Replacements, other: Replacements): Replacements
    decreases |other|
  {
    if |other| == 0 then m else Merge(Put(m, other[0].key, other[0].value), other[1..])
  }

  /** `map.flip()`: every value becomes a key mapping to its key. */
  function Flip(m: Replacements): Replacements {
    if |m| == 0 then []
    else Put(Flip(m[..|m| - 1]), m[|m| - 1].value, m[|m| - 1].key)
  }

  /** `escapeWith(replacements, text)`: each key in turn, every occurrence. */
  function EscapeWith(m: Replacements, text: string): string
    decreases |m|
  {
    if |m| == 0 then text else EscapeWith(m[1..], JsString.ReplaceAll(text, m[0].key, m[0].value))
  }

  /** `unescapeWith(replacements, text)` */
  function UnescapeWith(m: Replacements, text: string): string {
    EscapeWith(Flip(m), text)
  }

  // ----- table laws -------------------------------------------------------------

  /** Setting a key that is not there appends it. */
  lemma {:induction false} PutNew(m: Replacements, k: string, v: string)
    requires !HasKey(m, k)
    ensures Put(m, k, v) == m + [Replacement(k, v)]
    decreases |m|
  {
    if |m| > 0 {
      assert m[0].key != k;
      forall i | 0 <= i < |m[1..]| ensures m[1..][i].key != k {
        assert m[1..][i] == m[i + 1];
      }
      PutNew(m[1..], k, v);
    }
  }

  predicate DistinctValues(m: Replacements) {
    forall i, j :: 0 <= i < j < |m| ==> m[i].value != m[j].value
  }

  /** The flipped table of a table whose values are distinct: the same
      entries in the same order, each turned round. */
  lemma {:induction false} FlipDistinct(m: Replacements)
    requires DistinctValues(m)
    ensures Flip(m) == seq(|m|, i requires 0 <= i < |m| => Replacement(m[i].value, m[i].key))
    decreases |m|
  {
    if |m| > 0 {
      var n := |m| - 1;
      var init := m[..n];
      assert DistinctValues(init) by {
        forall i, j | 0 <= i < j < |init| ensures init[i].value != init[j].value {
          assert init[i] == m[i] && init[j] == m[j];
        }
      }
      FlipDistinct(init);
      var f := Flip(init);
      forall i | 0 <= i < |f| ensures f[i].key != m[n].value {
        assert f[i].key == m[i].value;
      }
      PutNew(f, m[n].value, m[n].key);
    }
  }

  /** Escaping with no table, or with keys that do not occur in the text,
      leaves the text as it is. */
  lemma {:induction false} EscapeWithAbsent(m: Replacements, text: string)
    requires forall i :: 0 <= i < |m| ==> |m[i].key| > 0 && !JsString.Contains(text, m[i].key)
    ensures EscapeWith(m, text) == text
    decreases |m|
  {
    if |m| > 0 {
      JsString.ReplaceAllAbsent(text, m[0].key, m[0].value);
      assert forall i :: 0 <= i < |m[1..]| ==> m[1..][i] == m[i + 1];
      EscapeWithAbsent(m[1..], text);
    }
  }

  /** Escaping with two tables one after the other is escaping with the
      table of both, in order. */
  lemma {:induction false} EscapeWithAppend(m1: Replacements, m2: Replacements, text: string)
    ensures EscapeWith(m1 + m2, text) == EscapeWith(m2, EscapeWith(m1, text))
    decreases |m1|
  {
    if |m1| == 0 {
      assert m1 + m2 == m2;
    } else {
      assert (m1 + m2)[1..] == m1[1..] + m2;
      EscapeWithAppend(m1[1..], m2, JsString.ReplaceAll(text, m1[0].key, m1[0].value));
    }
  }

  // ----- tables of single characters --------------------------------------------

  /** The text with every character replaced by its image under `f`. */
  function CharMap(s: string, f: char -> string): string {
    if |s| == 0 then "" else f(s[0]) + CharMap(s[1..], f)
  }

  lemma {:induction false} CharMapIdentity(s: string, f: char -> string)
    requires forall c :: f(c) == [c]
    ensures CharMap(s, f) == s
    decreases |s|
  {
    if |s| > 0 {
      CharMapIdentity(s[1..], f);
    }
  }

  lemma {:induction false} CharMapAgree(s: string, f: char -> string, g: char -> string)
    requires forall c :: f(c) == g(c)
    ensures CharMap(s, f) == CharMap(s, g)
    decreases |s|
  {
    if |s| > 0 {
      CharMapAgree(s[1..], f, g);
    }
  }

  /** Replacing a one-character key distributes over concatenation. */
  lemma {:induction false} ReplaceCharConcat(a: string, b: string, c: char, v: string)
    ensures JsString.ReplaceAll(a + b, [c], v) == JsString.ReplaceAll(a, [c], v) + JsString.ReplaceAll(b, [c], v)
    decreases |a|
  {
    if |a| == 0 {
      assert a + b == b;
    } else {
      assert (a + b)[0] == a[0] && (a + b)[1..] == a[1..] + b;
      assert JsString.StartsWith(a + b, [c]) <==> a[0] == c;
      assert JsString.StartsWith(a, [c]) <==> a[0] == c;
      ReplaceCharConcat(a[1..], b, c, v);
    }
  }

  /** Replacing a one-character key in a character-wise image is the image
      under the replaced function. */
  lemma {:induction false} ReplaceCharMap(s: string, f: char -> string, g: char -> string, c: char, v: string)
    requires forall x :: g(x) == JsString.ReplaceAll(f(x), [c], v)
    ensures JsString.ReplaceAll(CharMap(s, f), [c], v) == CharMap(s, g)
    decreases |s|
  {
    if |s| > 0 {
      ReplaceCharConcat(f(s[0]), CharMap(s[1..], f), c, v);
      ReplaceCharMap(s[1..], f, g, c, v);
    }
  }

  /** A text without the first character of `sub` does not contain `sub`. */
  lemma {:induction false} NotInNotContains(s: string, sub: string)
    requires |sub| > 0 && sub[0] !in s
    ensures !JsString.Contains(s, sub)
    decreases |s|
  {
    if |s| > 0 {
      assert s[0] != sub[0];
      assert !JsString.StartsWith(s, sub) by {
        assert |sub| > |s| || s[..|sub|][0] != sub[0];
      }
      assert sub[0] !in s[1..];
      NotInNotContains(s[1..], sub);
    }
  }

  lemma ReplaceCharAbsent(s: string, c: char, v: string)
    requires c !in s
    ensures JsString.ReplaceAll(s, [c], v) == s
  {
    NotInNotContains(s, [c]);
    JsString.ReplaceAllAbsent(s, [c], v);
  }

  lemma ReplaceCharItself(c: char, v: string)
    ensures JsString.ReplaceAll([c], [c], v) == v
  {
    assert JsString.StartsWith([c], [c]);
    assert [c][1..] == "";
  }

  /** A table of one-character keys, pairwise different, where no key
      occurs in the replacement of an earlier key: escaping with it treats
      every character on its own. */
  predicate CharTable(m: Replacements)
    decreases |m|
  {
    |m| == 0
    || (|m[0].key| == 1
        && (forall j :: 1 <= j < |m| ==> m[j].key != m[0].key && (|m[j].key| == 0 || m[j].key[0] !in m[0].value))
        && CharTable(m[1..]))
  }

  /** Row `i` of a character table: a one-character key that no later key
      repeats, in whose replacement no later key occurs. */
  predicate CharRow(m: Replacements, i: nat)
    requires i < |m|
  {
    |m[i].key| == 1
    && forall j :: i < j < |m| ==> m[j].key != m[i].key && (|m[j].key| == 0 || m[j].key[0] !in m[i].value)
  }

  lemma {:induction false} CharTableOfRows(m: Replacements)
    requires forall i :: 0 <= i < |m| ==> CharRow(m, i)
    ensures CharTable(m)
    decreases |m|
  {
    if |m| > 0 {
      var t := m[1..];
      forall i | 0 <= i < |t| ensures CharRow(t, i) {
        assert CharRow(m, i + 1);
        assert forall j :: i < j < |t| ==> t[j] == m[j + 1];
      }
      CharTableOfRows(t);
      assert CharRow(m, 0);
    }
  }

  /** `g` gives every key's replacement, and `f` for the other characters. */
  predicate EntriesOf(m: Replacements, f: char -> string, g: char -> string) {
    (forall i :: 0 <= i < |m| && |m[i].key| == 1 ==> g(m[i].key[0]) == m[i].value)
    && forall x :: (forall i :: 0 <= i < |m| ==> m[i].key != [x]) ==> g(x) == f(x)
  }

  /** Escaping a character-wise image with a character table is the image
      under the table's entries, provided no key occurs in an image it does
      not come from and every key still maps to itself. */
  lemma {:induction false} EscapeCharwiseFrom(m: Replacements, s: string, f: char -> string, g: char -> string)
    requires CharTable(m)
    requires forall i :: 0 <= i < |m| && |m[i].key| == 1 ==> f(m[i].key[0]) == m[i].key
    requires forall i, x :: 0 <= i < |m| && |m[i].key| == 1 && x != m[i].key[0] ==> m[i].key[0] !in f(x)
    requires EntriesOf(m, f, g)
    ensures EscapeWith(m, CharMap(s, f)) == CharMap(s, g)
    decreases |m|
  {
    if |m| == 0 {
      CharMapAgree(s, f, g);
    } else {
      var c := m[0].key[0];
      var v := m[0].value;
      assert m[0].key == [c];
      var f' := (x: char) => if x == c then v else f(x);
      forall x ensures f'(x) == JsString.ReplaceAll(f(x), [c], v) {
        if x == c {
          ReplaceCharItself(c, v);
        } else {
          ReplaceCharAbsent(f(x), c, v);
        }
      }
      ReplaceCharMap(s, f, f', c, v);
      var t := m[1..];
      assert forall i :: 0 <= i < |t| ==> t[i] == m[i + 1];
      forall i | 0 <= i < |t| && |t[i].key| == 1 ensures f'(t[i].key[0]) == t[i].key {
        assert t[i].key != m[0].key;
      }
      forall x | (forall i :: 0 <= i < |t| ==> t[i].key != [x]) ensures g(x) == f'(x) {
        if x != c {
          forall i | 0 <= i < |m| ensures m[i].key != [x] {
            if i > 0 {
              assert m[i] == t[i - 1];
            }
          }
        }
      }
      EscapeCharwiseFrom(t, s, f', g);
    }
  }

  /** Escaping with a character table replaces each character of the text
      by its entry, on its own: no replacement is escaped again. */
  lemma EscapeCharwise(m: Replacements, s: string, g: char -> string)
    requires CharTable(m)
    requires EntriesOf(m, (x: char) => [x], g)
    ensures EscapeWith(m, s) == CharMap(s, g)
  {
    var id := (x: char) => [x];
    CharMapIdentity(s, id);
    EscapeCharwiseFrom(m, s, id, g);
  }
}
