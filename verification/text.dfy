/** A value that may be absent, as Python's `None`. */
module Optional {
  datatype Option<+T> = None | Some(value: T)
}

/** String operations with the meaning Python gives them in the chat programs:
    `lower()` (restricted to ASCII letters), the substring test `p in s`,
    `startswith`, `split` on a single separator character and `join`. */
module Text {
  import opened Optional

  /** ASCII case folding; every other character is left as it is. */
  function LowerChar(c: char): char
  {
    if 'A' <= c <= 'Z' then (c as int + 32) as char else c
  }

  /** `s.lower()`: folds each character on its own, so the length is kept
      and no capital letter is left. */
  function Lower(s: string): (r: string)
    ensures |r| == |s|
    ensures forall i :: 0 <= i < |s| ==> r[i] == LowerChar(s[i])
    ensures forall i :: 0 <= i < |r| ==> !('A' <= r[i] <= 'Z')
  {
    seq(|s|, i requires 0 <= i < |s| => LowerChar(s[i]))
  }

  /** Lowering twice is lowering once, and a string is left as it is exactly
      when it holds no capital letter. */
  lemma LowerFixed(s: string)
    ensures Lower(Lower(s)) == Lower(s)
    ensures Lower(s) == s <==> forall i :: 0 <= i < |s| ==> !('A' <= s[i] <= 'Z')
  {
    var t := Lower(s);
    assert forall i :: 0 <= i < |t| ==> Lower(t)[i] == t[i];
    if Lower(s) == s {
      forall i | 0 <= i < |s| ensures !('A' <= s[i] <= 'Z') {
        assert s[i] == t[i];
      }
    }
  }

  /** `s.startswith(p)`. */
  predicate StartsWith(s: string, p: string)
  {
    p <= s
  }

  /** `p` occurs in `s` starting at index `i`. */
  predicate OccursAt(s: string, p: string, i: int)
  {
    0 <= i && i + |p| <= |s| && s[i..i + |p|] == p
  }

  /** Python's `p in s` on strings, by scanning the start positions of `s`. */
  predicate Contains(s: string, p: string)
    ensures Contains(s, p) ==> |p| <= |s|
    decreases |s|
  {
    p <= s || (s != [] && Contains(s[1..], p))
  }

  /** The scan finds `p` exactly when `p` occurs somewhere in `s`. */
  lemma {:induction false} ContainsIff(s: string, p: string)
    ensures Contains(s, p) <==> exists i :: OccursAt(s, p, i)
    decreases |s|
  {
    if p <= s {
      assert OccursAt(s, p, 0);
    } else if s == [] {
      assert |p| > 0;
    } else {
      ContainsIff(s[1..], p);
      OccursShift(s, p);
    }
  }

  /** Past the first position, `p` occurs in `s` exactly where it occurs in
      `s[1..]`, one position on. */
  lemma OccursShift(s: string, p: string)
    requires s != [] && !(p <= s)
    ensures (exists i :: OccursAt(s, p, i)) <==> exists i :: OccursAt(s[1..], p, i)
  {
    if exists i :: OccursAt(s[1..], p, i) {
      var i :| OccursAt(s[1..], p, i);
      assert s[i + 1..i + 1 + |p|] == s[1..][i..i + |p|];
      assert OccursAt(s, p, i + 1);
    }
    if exists i :: OccursAt(s, p, i) {
      var i :| OccursAt(s, p, i);
      assert i != 0;
      assert s[1..][i - 1..i - 1 + |p|] == s[i..i + |p|];
      assert OccursAt(s[1..], p, i - 1);
    }
  }

  /** The four characters of `s` at `i` spell "stop" in some letter case. */
  predicate StopAt(s: string, i: int)
  {
    0 <= i && i + 4 <= |s| && Lower(s[i..i + 4]) == "stop"
  }

  /** `"stop" in s.lower()`. */
  predicate MentionsStop(s: string)
  {
    Contains(Lower(s), "stop")
  }

  lemma LowerSlice(s: string, i: int, j: int)
    requires 0 <= i <= j <= |s|
    ensures Lower(s)[i..j] == Lower(s[i..j])
  {
  }

  /** `"stop" in s.lower()` holds exactly when some four consecutive
      characters of `s` spell "stop", whatever their letter case. */
  lemma MentionsStopIff(s: string)
    ensures MentionsStop(s) <==> exists i :: StopAt(s, i)
  {
    ContainsIff(Lower(s), "stop");
    if MentionsStop(s) {
      var i :| OccursAt(Lower(s), "stop", i);
      LowerSlice(s, i, i + 4);
      assert StopAt(s, i);
    }
    if exists i :: StopAt(s, i) {
      var i :| StopAt(s, i);
      LowerSlice(s, i, i + 4);
      assert OccursAt(Lower(s), "stop", i);
    }
  }

  /** `s.split(sep)`: the maximal pieces between separators, so there is one
      more piece than there are separators, and "" splits into [""]. */
  function Split(s: string, sep: char): (r: seq<string>)
    ensures |r| >= 1
    ensures forall k :: 0 <= k < |r| ==> sep !in r[k]
    decreases |s|
  {
    if s == [] then [""]
    else
      var rest := Split(s[1..], sep);
      if s[0] == sep then [""] + rest
      else [[s[0]] + rest[0]] + rest[1..]
  }

  /** `sep.join(parts)`: the parts in order, with a separator between each
      two of them. */
  function Join(parts: seq<string>, sep: char): (r: string)
    ensures parts != [] ==> parts[0] <= r
    ensures |parts| >= 2 ==> sep in r
    ensures |r| + 1 >= |parts|
    decreases |parts|
  {
    if parts == [] then ""
    else if |parts| == 1 then parts[0]
    else parts[0] + [sep] + Join(parts[1..], sep)
  }

  /** Joining the pieces of a split gives the original string back. */
  lemma {:induction false} JoinSplit(s: string, sep: char)
    ensures Join(Split(s, sep), sep) == s
    decreases |s|
  {
    if s != [] {
      var rest := Split(s[1..], sep);
      JoinSplit(s[1..], sep);
      if s[0] == sep {
        assert Split(s, sep) == [""] + rest;
        assert Join([""] + rest, sep) == "" + [sep] + Join(rest, sep);
      } else if |rest| == 1 {
        assert Split(s, sep) == [[s[0]] + rest[0]];
        assert s == [s[0]] + s[1..];
      } else {
        var r := Split(s, sep);
        assert r == [[s[0]] + rest[0]] + rest[1..];
        assert r[1..] == rest[1..];
        assert Join(rest, sep) == rest[0] + [sep] + Join(rest[1..], sep);
        assert Join(r, sep) == [s[0]] + rest[0] + [sep] + Join(rest[1..], sep);
        assert s == [s[0]] + s[1..];
      }
    }
  }

  /** A separator-free prefix joins the first piece of what follows it. */
  lemma {:induction false} SplitPrefix(a: string, t: string, sep: char)
    requires sep !in a
    ensures Split(a + t, sep) == [a + Split(t, sep)[0]] + Split(t, sep)[1..]
    decreases |a|
  {
    var st := Split(t, sep);
    if a == [] {
      assert a + t == t;
      assert a + st[0] == st[0];
      assert st == [st[0]] + st[1..];
    } else {
      SplitPrefix(a[1..], t, sep);
      assert (a + t)[0] == a[0];
      assert (a + t)[1..] == a[1..] + t;
      assert [a[0]] + (a[1..] + Split(t, sep)[0]) == a + Split(t, sep)[0];
    }
  }

  /** Splitting what was joined gives the parts back, provided no part holds
      the separator and there is at least one part (join of [] is "", whose
      split is [""]). */
  lemma {:induction false} SplitJoin(parts: seq<string>, sep: char)
    requires |parts| >= 1
    requires forall k :: 0 <= k < |parts| ==> sep !in parts[k]
    ensures Split(Join(parts, sep), sep) == parts
    decreases |parts|
  {
    if |parts| == 1 {
      SplitPrefix(parts[0], "", sep);
      assert parts[0] + "" == parts[0];
    } else {
      var tail := Join(parts[1..], sep);
      SplitJoin(parts[1..], sep);
      assert Join(parts, sep) == parts[0] + ([sep] + tail);
      SplitPrefix(parts[0], [sep] + tail, sep);
      assert ([sep] + tail)[0] == sep;
      assert ([sep] + tail)[1..] == tail;
      assert Split([sep] + tail, sep) == [""] + parts[1..];
      assert parts[0] + "" == parts[0];
      assert parts == [parts[0]] + parts[1..];
    }
  }

  /** The pieces that are not empty, in their order (`if m:` in a loop). */
  function NonEmpty(pieces: seq<string>): (r: seq<string>)
    ensures |r| <= |pieces|
    ensures forall k :: 0 <= k < |r| ==> r[k] != "" && r[k] in pieces
  {
    if pieces == [] then []
    else
      var last := pieces[|pieces| - 1];
      NonEmpty(pieces[..|pieces| - 1]) + (if last != "" then [last] else [])
  }

  lemma {:induction false} NonEmptyAppend(a: seq<string>, b: seq<string>)
    ensures NonEmpty(a + b) == NonEmpty(a) + NonEmpty(b)
    decreases |b|
  {
    if b == [] {
      assert a + b == a;
    } else {
      var b' := b[..|b| - 1];
      NonEmptyAppend(a, b');
      assert (a + b)[..|a + b| - 1] == a + b';
      assert (a + b)[|a + b| - 1] == b[|b| - 1];
    }
  }

  lemma {:induction false} NonEmptyKeeps(pieces: seq<string>)
    requires forall k :: 0 <= k < |pieces| ==> pieces[k] != ""
    ensures NonEmpty(pieces) == pieces
    decreases |pieces|
  {
    if pieces != [] {
      NonEmptyKeeps(pieces[..|pieces| - 1]);
    }
  }

  /** Lines written one after the other, each ended by a newline. */
  function Lines(ls: seq<string>): string
    decreases |ls|
  {
    if ls == [] then "" else ls[0] + "\n" + Lines(ls[1..])
  }

  lemma {:induction false} LinesAsJoin(ls: seq<string>)
    ensures Lines(ls) == Join(ls + [""], '\n')
    decreases |ls|
  {
    if ls != [] {
      LinesAsJoin(ls[1..]);
      assert (ls + [""])[1..] == ls[1..] + [""];
    }
  }

  /** Non-empty newline-free lines written one after another come back, in
      order, from splitting on newlines and dropping the empty pieces. */
  lemma SplitLines(ls: seq<string>)
    requires forall k :: 0 <= k < |ls| ==> ls[k] != "" && '\n' !in ls[k]
    ensures NonEmpty(Split(Lines(ls), '\n')) == ls
  {
    LinesAsJoin(ls);
    SplitJoin(ls + [""], '\n');
    NonEmptyAppend(ls, [""]);
    NonEmptyKeeps(ls);
    assert NonEmpty([""]) == [];
  }

  /** Concatenation regroups. */
  lemma Assoc<T>(a: seq<T>, b: seq<T>, c: seq<T>)
    ensures a + b + c == a + (b + c)
  {
  }

  /** The two halves of a concatenation are recovered by slicing. */
  lemma AppendParts<T>(a: seq<T>, b: seq<T>)
    ensures (a + b)[..|a|] == a && (a + b)[|a|..] == b
  {
  }

  /** A slice that lies in the second half of a concatenation. */
  lemma SliceRight<T>(a: seq<T>, b: seq<T>, i: int, j: int)
    requires |a| <= i <= j <= |a| + |b|
    ensures (a + b)[i..j] == b[i - |a|..j - |a|]
  {
  }

  /** The first index of `c` in `s`, if any (`s.find(c)`). */
  function IndexOf(s: string, c: char): (r: Option<nat>)
    ensures r.Some? ==> r.value < |s| && s[r.value] == c && c !in s[..r.value]
    ensures r.None? ==> c !in s
    decreases |s|
  {
    if s == [] then None
    else if s[0] == c then Some(0)
    else
      match IndexOf(s[1..], c)
      case None => None
      case Some(k) => Some(k + 1)
  }

  /** The first occurrence is the one found. */
  lemma IndexOfAt(s: string, c: char, k: nat)
    requires k < |s| && s[k] == c && c !in s[..k]
    ensures IndexOf(s, c) == Some(k)
  {
    assert c in s;
    assert forall i :: 0 <= i < k ==> s[..k][i] == s[i];
    match IndexOf(s, c)
    case None =>
    case Some(j) =>
      assert forall i :: 0 <= i < j ==> s[..j][i] == s[i];
  }
}

/** Python's in-place list removal, as a function on sequences. */
module Lists {

  /** `s.remove(x)`: drops the first element equal to `x` (Python raises
      ValueError when there is none; every caller here passes an element). */
  function RemoveFirst<T(==)>(s: seq<T>, x: T): (r: seq<T>)
    requires x in s
    ensures |r| == |s| - 1
  {
    if s[0] == x then
      assert s == [s[0]] + s[1..];
      s[1..]
    else
      assert s == [s[0]] + s[1..];
      [s[0]] + RemoveFirst(s[1..], x)
  }

  /** When nothing before `x` equals it, exactly that occurrence goes. */
  lemma {:induction false} RemoveFirstAfter<T>(a: seq<T>, x: T, b: seq<T>)
    requires x !in a
    ensures RemoveFirst(a + [x] + b, x) == a + b
    decreases |a|
  {
    var s := a + [x] + b;
    if a == [] {
      assert s == [x] + b;
      assert s[0] == x && s[1..] == b;
    } else {
      RemoveFirstAfter(a[1..], x, b);
      assert s[0] == a[0] && a[0] != x;
      assert s[1..] == a[1..] + [x] + b;
      assert RemoveFirst(s, x) == [a[0]] + RemoveFirst(s[1..], x);
      assert a + b == [a[0]] + (a[1..] + b);
    }
  }
}
