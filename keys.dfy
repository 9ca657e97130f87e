/** ASCII `str.strip()` / `str.lower()`, substring search, and the catalog key
    `(name.strip().lower(), category)` shared by the menu and by orders. */
module Keys {
  import opened Errors
  import opened Enums

  /** The ASCII characters for which `str.isspace()` holds: tab to carriage
      return, the four separators 0x1C-0x1F, and the space. */
  predicate IsSpace(c: char)
  {
    c == ' ' || 9 <= c as int <= 13 || 28 <= c as int <= 31
  }

  /** `str.lstrip()`. */
  function TrimStart(s: string): string
  {
    if s != [] && IsSpace(s[0]) then TrimStart(s[1..]) else s
  }

  /** `str.rstrip()`. */
  function TrimEnd(s: string): string
  {
    if s != [] && IsSpace(s[|s| - 1]) then TrimEnd(s[..|s| - 1]) else s
  }

  /** `str.strip()`. */
  function Strip(s: string): string
  {
    TrimEnd(TrimStart(s))
  }

  /** `lstrip` drops exactly the leading whitespace: what it returns is a
      suffix that does not start with whitespace, and all it cut off is whitespace. */
  lemma {:induction false} TrimStartSpec(s: string)
    ensures var r := TrimStart(s);
      |r| <= |s| && r == s[|s| - |r|..] && (r == [] || !IsSpace(r[0])) &&
      forall k :: 0 <= k < |s| - |r| ==> IsSpace(s[k])
    decreases |s|
  {
    if s != [] && IsSpace(s[0]) {
      TrimStartSpec(s[1..]);
    }
  }

  /** `rstrip` drops exactly the trailing whitespace: what it returns is a
      prefix that does not end with whitespace, and all it cut off is whitespace. */
  lemma {:induction false} TrimEndSpec(s: string)
    ensures var r := TrimEnd(s);
      |r| <= |s| && r == s[..|r|] && (r == [] || !IsSpace(r[|r| - 1])) &&
      forall k :: |r| <= k < |s| ==> IsSpace(s[k])
    decreases |s|
  {
    if s != [] && IsSpace(s[|s| - 1]) {
      TrimEndSpec(s[..|s| - 1]);
    }
  }

  /** `strip` leaves a string that neither starts nor ends with whitespace. */
  lemma StripSpec(s: string)
    ensures var r := Strip(s);
      |r| <= |s| && (r == [] || (!IsSpace(r[0]) && !IsSpace(r[|r| - 1])))
  {
    var t := TrimStart(s);
    TrimStartSpec(s);
    TrimEndSpec(t);
  }

  /** Stripping a stripped string changes nothing. */
  lemma {:induction false} StripIdempotent(s: string)
    ensures Strip(Strip(s)) == Strip(s)
  {
    var r := Strip(s);
    StripSpec(s);
    assert TrimStart(r) == r;
    assert TrimEnd(r) == r;
  }

  function LowerChar(c: char): char
  {
    if 'A' <= c <= 'Z' then (c as int + 32) as char else c
  }

  /** `str.lower()` on ASCII: maps A-Z to a-z, leaves every other character. */
  function Lower(s: string): string
  {
    if s == [] then [] else [LowerChar(s[0])] + Lower(s[1..])
  }

  /** `_normalize_name`: surrounding whitespace and letter case do not matter. */
  function Normalize(name: string): string
  {
    Lower(Strip(name))
  }

  /** What normalising does: the result is the name with its leading and
      trailing whitespace cut off and every upper-case letter lowered, so it
      neither starts nor ends with whitespace and holds no upper-case letter. */
  lemma NormalizeSpec(name: string)
    ensures var r := Normalize(name);
      |r| <= |name| && (r == [] || (!IsSpace(r[0]) && !IsSpace(r[|r| - 1]))) &&
      (forall i :: 0 <= i < |r| ==> !('A' <= r[i] <= 'Z')) &&
      exists k :: 0 <= k <= |name| - |r| && Cut(name, r, k)
  {
    var t := TrimStart(name);
    var u := Strip(name);
    TrimStartSpec(name);
    TrimEndSpec(t);
    LowerSpec(u);
    var k := |name| - |t|;
    forall i | 0 <= i < |u| ensures u[i] == name[k + i] {
      assert u[i] == t[i];
    }
    assert Cut(name, Normalize(name), k);
  }

  /** `r` is `name[k..k + |r|]` lowered, and everything around that slice is whitespace. */
  predicate Cut(name: string, r: string, k: int)
    requires 0 <= k <= |name| - |r|
  {
    (forall i :: 0 <= i < k ==> IsSpace(name[i])) &&
    (forall i :: k + |r| <= i < |name| ==> IsSpace(name[i])) &&
    (forall i :: 0 <= i < |r| ==> r[i] == LowerChar(name[k + i]))
  }

  /** `lower` keeps the length and maps each character on its own. */
  lemma {:induction false} LowerSpec(s: string)
    ensures |Lower(s)| == |s|
    ensures forall i :: 0 <= i < |s| ==> Lower(s)[i] == LowerChar(s[i])
    decreases |s|
  {
    if s != [] {
      LowerSpec(s[1..]);
    }
  }

  /** Whitespace is not a letter, so trimming and lowering commute. */
  lemma {:induction false} TrimStartLower(s: string)
    ensures TrimStart(Lower(s)) == Lower(TrimStart(s))
    decreases |s|
  {
    if s != [] {
      LowerSpec(s);
      if IsSpace(s[0]) {
        TrimStartLower(s[1..]);
      }
    }
  }

  lemma {:induction false} TrimEndLower(s: string)
    ensures TrimEnd(Lower(s)) == Lower(TrimEnd(s))
    decreases |s|
  {
    if s != [] {
      var n := |s| - 1;
      LowerSpec(s);
      assert IsSpace(Lower(s)[n]) == IsSpace(s[n]);
      if IsSpace(s[n]) {
        calc {
          TrimEnd(Lower(s));
          TrimEnd(Lower(s)[..n]);
          { LowerSpec(s[..n]); assert Lower(s)[..n] == Lower(s[..n]); }
          TrimEnd(Lower(s[..n]));
          { TrimEndLower(s[..n]); }
          Lower(TrimEnd(s[..n]));
          Lower(TrimEnd(s));
        }
      }
    }
  }

  lemma LowerIdempotent(s: string)
    ensures Lower(Lower(s)) == Lower(s)
  {
    LowerSpec(s);
    LowerSpec(Lower(s));
  }

  /** Normalising an already normalised name gives the same name, so a key's
      name is itself a normal form. */
  lemma NormalizeIdempotent(name: string)
    ensures Normalize(Normalize(name)) == Normalize(name)
  {
    var t := Strip(name);
    calc {
      Normalize(Normalize(name));
      Lower(TrimEnd(TrimStart(Lower(t))));
      { TrimStartLower(t); }
      Lower(TrimEnd(Lower(TrimStart(t))));
      { TrimEndLower(TrimStart(t)); }
      Lower(Lower(Strip(t)));
      { StripIdempotent(name); LowerIdempotent(t); }
      Lower(t);
    }
  }

  /** The identity of a menu item and of an order line. */
  datatype Key = Key(name: string, category: Category)

  /** `_make_key`: the key of a (name, category) pair. Its name is the
      normalised name, which is a normal form: normalising it again changes
      nothing, so two spellings that normalise alike give the same key. */
  function MakeKey(name: string, category: Category): Key
  {
    Key(Normalize(name), category)
  }

  /** A key's name is in normal form: no surrounding whitespace, no upper-case
      ASCII letter, and normalising it again changes nothing. */
  lemma MakeKeyNormal(name: string, category: Category)
    ensures Normalize(MakeKey(name, category).name) == MakeKey(name, category).name
    ensures var n := MakeKey(name, category).name;
      forall i :: 0 <= i < |n| ==> !('A' <= n[i] <= 'Z')
    ensures var n := MakeKey(name, category).name;
      n == [] || (!IsSpace(n[0]) && !IsSpace(n[|n| - 1]))
  {
    NormalizeIdempotent(name);
    var t := Strip(name);
    StripSpec(name);
    LowerSpec(t);
  }

  /** " Iced Tea " and "iced tea" name the same Drink. */
  lemma IcedTeaKey()
    ensures MakeKey(" Iced Tea ", Drink) == MakeKey("iced tea", Drink)
  {
    assert " Iced Tea "[1..] == "Iced Tea ";
    assert TrimStart(" Iced Tea ") == "Iced Tea ";
    assert "Iced Tea "[..8] == "Iced Tea";
    assert TrimEnd("Iced Tea ") == "Iced Tea";
    assert Strip("iced tea") == "iced tea";
    LowerSpec("Iced Tea");
    LowerSpec("iced tea");
    assert forall i :: 0 <= i < 8 ==> Lower("Iced Tea")[i] == "iced tea"[i];
    assert forall i :: 0 <= i < 8 ==> Lower("iced tea")[i] == "iced tea"[i];
  }

  /** The category is part of the key: one name gives two keys under two categories. */
  lemma CategoryDistinguishesKeys(name: string, c: Category, d: Category)
    requires c != d
    ensures MakeKey(name, c) != MakeKey(name, d)
  {
  }

  /** No key occurs twice. */
  predicate Distinct(ks: seq<Key>)
  {
    forall i, j :: 0 <= i < j < |ks| ==> ks[i] != ks[j]
  }

  /** The keys in a sequence of keys, as a set. */
  function KeySet(ks: seq<Key>): (r: set<Key>)
    ensures forall k :: k in r <==> k in ks
  {
    set k | k in ks
  }

  /** Deleting one position keeps the keys distinct and drops that key entirely. */
  lemma DistinctRemove(ks: seq<Key>, i: nat)
    requires Distinct(ks) && i < |ks|
    ensures Distinct(ks[..i] + ks[i + 1..])
    ensures ks[i] !in ks[..i] + ks[i + 1..]
  {
    var r := ks[..i] + ks[i + 1..];
    assert forall j :: 0 <= j < |r| ==> r[j] == ks[if j < i then j else j + 1];
  }

  /** The position of `k` in `ks`: the dictionary lookup `key in d`. */
  function IndexOf(ks: seq<Key>, k: Key): (r: Option<nat>)
    ensures r.Some? ==> r.value < |ks| && ks[r.value] == k
    ensures r.Some? ==> forall j :: 0 <= j < r.value ==> ks[j] != k
    ensures r.None? <==> k !in ks
  {
    if ks == [] then None
    else if ks[0] == k then Some(0)
    else match IndexOf(ks[1..], k)
      case None => None
      case Some(i) => Some(i + 1)
  }

  /** With distinct keys the lookup finds the one position holding the key. */
  lemma IndexOfDistinct(ks: seq<Key>, i: nat)
    requires Distinct(ks) && i < |ks|
    ensures IndexOf(ks, ks[i]) == Some(i)
  {
  }

  /** `p` occurs in `s` starting at position `i`. */
  predicate OccursAt(p: string, s: string, i: int)
  {
    0 <= i <= |s| - |p| && s[i..i + |p|] == p
  }

  /** Python's `p in s` on strings. */
  predicate IsInfix(p: string, s: string)
    decreases |s|
  {
    (|p| <= |s| && s[..|p|] == p) || (s != [] && IsInfix(p, s[1..]))
  }

  lemma {:induction false} IsInfixFromOccurrence(p: string, s: string, i: int)
    requires OccursAt(p, s, i)
    ensures IsInfix(p, s)
    decreases i
  {
    if i > 0 {
      assert s[1..][i - 1..i - 1 + |p|] == s[i..i + |p|];
      IsInfixFromOccurrence(p, s[1..], i - 1);
    }
  }

  lemma {:induction false} OccurrenceFromIsInfix(p: string, s: string) returns (i: int)
    requires IsInfix(p, s)
    ensures OccursAt(p, s, i)
    decreases |s|
  {
    if |p| <= |s| && s[..|p|] == p {
      i := 0;
    } else {
      var j := OccurrenceFromIsInfix(p, s[1..]);
      assert s[j + 1..j + 1 + |p|] == s[1..][j..j + |p|];
      i := j + 1;
    }
  }

  /** `p in s` holds exactly when `p` occurs at some position of `s`. */
  lemma IsInfixAt(p: string, s: string)
    ensures IsInfix(p, s) <==> exists i :: OccursAt(p, s, i)
  {
    if IsInfix(p, s) {
      var i := OccurrenceFromIsInfix(p, s);
    }
    if i :| OccursAt(p, s, i) {
      IsInfixFromOccurrence(p, s, i);
    }
  }

  /** A keyword made only of whitespace normalises to "", which occurs in every string. */
  lemma BlankKeywordMatchesAll(keyword: string, s: string)
    requires forall i :: 0 <= i < |keyword| ==> IsSpace(keyword[i])
    ensures Normalize(keyword) == []
    ensures IsInfix(Normalize(keyword), s)
  {
    TrimStartSpec(keyword);
  }
}
