/** Splitting, trimming and joining, as the path, URI and phrase code of the repository does it. */
module Strings {

  /** The Unicode White_Space property. */
  predicate IsWhitespace(c: char) {
    var u := c as int;
    9 <= u <= 13 || u == 0x20 || u == 0x85 || u == 0xA0 || u == 0x1680 || 0x2000 <= u <= 0x200A
    || u == 0x2028 || u == 0x2029 || u == 0x202F || u == 0x205F || u == 0x3000
  }

  /** What JavaScript's trim removes and `\s` matches: not U+0085, but U+FEFF. */
  predicate IsJsSpace(c: char) {
    c as int == 0xFEFF || (c as int != 0x85 && IsWhitespace(c))
  }

  predicate IsSlash(c: char) {
    c == '/'
  }

  /** s without separators at either end. */
  function Trim(s: string, sep: char -> bool): string {
    if s == "" then ""
    else if sep(s[0]) then Trim(s[1..], sep)
    else if sep(s[|s| - 1]) then Trim(s[..|s| - 1], sep)
    else s
  }

  /** The pieces between separators, empty ones included. */
  function Split(s: string, sep: char -> bool): (parts: seq<string>)
    ensures |parts| >= 1
  {
    if s == "" then [""]
    else
      var rest := Split(s[1..], sep);
      if sep(s[0]) then [""] + rest else [[s[0]] + rest[0]] + rest[1..]
  }

  function NonEmpty(parts: seq<string>): seq<string> {
    if parts == [] then []
    else (if parts[0] == "" then [] else [parts[0]]) + NonEmpty(parts[1..])
  }

  /** The non-empty pieces between separators. */
  function Fields(s: string, sep: char -> bool): seq<string> {
    NonEmpty(Split(s, sep))
  }

  function Join(parts: seq<string>, c: char): string {
    if parts == [] then ""
    else if |parts| == 1 then parts[0]
    else parts[0] + [c] + Join(parts[1..], c)
  }

  ghost predicate Free(s: string, sep: char -> bool) {
    forall i :: 0 <= i < |s| ==> !sep(s[i])
  }

  ghost predicate AllFree(parts: seq<string>, sep: char -> bool) {
    forall i :: 0 <= i < |parts| ==> Free(parts[i], sep)
  }

  ghost predicate AllNonEmpty(parts: seq<string>) {
    forall i :: 0 <= i < |parts| ==> parts[i] != ""
  }

  lemma {:induction false} SplitFree(s: string, sep: char -> bool)
    requires Free(s, sep)
    ensures Split(s, sep) == [s]
  {
    if s != "" {
      SplitFree(s[1..], sep);
      assert [s[0]] + s[1..] == s;
    }
  }

  lemma {:induction false} SplitAt(a: string, c: char, b: string, sep: char -> bool)
    requires Free(a, sep) && sep(c)
    ensures Split(a + [c] + b, sep) == [a] + Split(b, sep)
  {
    var s := a + [c] + b;
    if a == "" {
      assert s[1..] == b;
    } else {
      assert s[1..] == a[1..] + [c] + b;
      SplitAt(a[1..], c, b, sep);
      assert [a[0]] + a[1..] == a;
    }
  }

  /** Splitting undoes joining when no piece contains the separator. */
  lemma {:induction false} SplitJoin(parts: seq<string>, c: char, sep: char -> bool)
    requires |parts| > 0 && AllFree(parts, sep) && sep(c)
    ensures Split(Join(parts, c), sep) == parts
  {
    if |parts| == 1 {
      SplitFree(parts[0], sep);
    } else {
      SplitJoin(parts[1..], c, sep);
      SplitAt(parts[0], c, Join(parts[1..], c), sep);
    }
  }

  /** Every piece of a split is free of separators. */
  lemma {:induction false} SplitIsFree(s: string, sep: char -> bool)
    ensures AllFree(Split(s, sep), sep)
  {
    if s != "" {
      SplitIsFree(s[1..], sep);
    }
  }

  lemma {:induction false} NonEmptyKeeps(parts: seq<string>)
    requires AllNonEmpty(parts)
    ensures NonEmpty(parts) == parts
  {
    if parts != [] {
      NonEmptyKeeps(parts[1..]);
      assert parts == [parts[0]] + parts[1..];
    }
  }

  /** The fields of a join are its pieces when those are non-empty and free of separators. */
  lemma FieldsJoin(parts: seq<string>, c: char, sep: char -> bool)
    requires AllFree(parts, sep) && AllNonEmpty(parts) && sep(c)
    ensures Fields(Join(parts, c), sep) == parts
  {
    if parts == [] {
      assert Split("", sep) == [""];
      assert NonEmpty([""]) == [] + NonEmpty([]);
    } else {
      SplitJoin(parts, c, sep);
      NonEmptyKeeps(parts);
    }
  }

  lemma TrimKeeps(s: string, sep: char -> bool)
    requires s != "" ==> !sep(s[0]) && !sep(s[|s| - 1])
    ensures Trim(s, sep) == s
  {
  }

  /** Nothing is left of a string of separators only. */
  lemma {:induction false} TrimEmptyIff(s: string, sep: char -> bool)
    ensures Trim(s, sep) == "" <==> forall i :: 0 <= i < |s| ==> sep(s[i])
    decreases |s|
  {
    if s != "" {
      if sep(s[0]) {
        TrimEmptyIff(s[1..], sep);
        assert s == [s[0]] + s[1..];
      } else if sep(s[|s| - 1]) {
        TrimEmptyIff(s[..|s| - 1], sep);
      }
    }
  }

  lemma {:induction false} JoinEnds(parts: seq<string>, c: char)
    requires |parts| > 0 && AllNonEmpty(parts)
    ensures var j := Join(parts, c); var last := parts[|parts| - 1];
      j != "" && j[0] == parts[0][0] && j[|j| - 1] == last[|last| - 1]
  {
    if |parts| > 1 {
      JoinEnds(parts[1..], c);
    }
  }

  /** Trimming changes nothing on a join of non-empty pieces free of separators. */
  lemma TrimJoin(parts: seq<string>, c: char, sep: char -> bool)
    requires AllFree(parts, sep) && AllNonEmpty(parts)
    ensures Trim(Join(parts, c), sep) == Join(parts, c)
  {
    if parts != [] {
      JoinEnds(parts, c);
    }
  }

  lemma {:induction false} TrimWithin(s: string, sep: char -> bool) returns (a: string, b: string)
    ensures s == a + Trim(s, sep) + b
    ensures (forall i :: 0 <= i < |a| ==> sep(a[i])) && (forall i :: 0 <= i < |b| ==> sep(b[i]))
    decreases |s|
  {
    a, b := "", "";
    if s == "" {
    } else if sep(s[0]) {
      a, b := TrimWithin(s[1..], sep);
      a := [s[0]] + a;
    } else if sep(s[|s| - 1]) {
      a, b := TrimWithin(s[..|s| - 1], sep);
      b := b + [s[|s| - 1]];
    }
  }

  // JavaScript's split on runs of separators

  /** The pieces between runs of separators; a run at either end leaves an empty piece there. */
  function SplitRuns(s: string, sep: char -> bool): seq<string> {
    var parts := Split(s, sep);
    if |parts| == 1 then parts else [parts[0]] + NonEmpty(parts[1..|parts| - 1]) + [parts[|parts| - 1]]
  }

  lemma {:induction false} NonEmptyAppend(a: seq<string>, b: seq<string>)
    ensures NonEmpty(a + b) == NonEmpty(a) + NonEmpty(b)
  {
    if a == [] {
      assert a + b == b;
    } else {
      assert (a + b)[1..] == a[1..] + b;
      NonEmptyAppend(a[1..], b);
    }
  }

  lemma NonEmptyOne(p: string)
    ensures NonEmpty([p]) == if p == "" then [] else [p]
  {
    assert [p][1..] == [];
  }

  lemma SplitOnce(s: string, sep: char -> bool)
    ensures Split("", sep) == [""]
    ensures s != "" ==>
      var rest := Split(s[1..], sep);
      Split(s, sep) == if sep(s[0]) then [""] + rest else [[s[0]] + rest[0]] + rest[1..]
  {
  }

  lemma {:induction false} LastPiece(s: string, sep: char -> bool)
    requires s != "" && !sep(s[|s| - 1])
    ensures var parts := Split(s, sep); parts[|parts| - 1] != ""
  {
    hide Split;
    var rest := Split(s[1..], sep);
    SplitOnce(s, sep);
    if |s| > 1 {
      LastPiece(s[1..], sep);
    } else {
      assert s[1..] == "" && rest == [""];
    }
    if |rest| > 1 {
      assert (if sep(s[0]) then [""] + rest else [[s[0]] + rest[0]] + rest[1..])[|Split(s, sep)| - 1]
        == rest[|rest| - 1];
    }
  }

  /** Without separators at the ends the runs part what single separators part. */
  lemma SplitRunsIsFields(s: string, sep: char -> bool)
    requires s != "" && !sep(s[0]) && !sep(s[|s| - 1])
    ensures SplitRuns(s, sep) == Fields(s, sep)
  {
    var parts := Split(s, sep);
    LastPiece(s, sep);
    NonEmptyOne(parts[0]);
    NonEmptyOne(parts[|parts| - 1]);
    if |parts| == 1 {
      assert parts == [parts[0]];
    } else {
      var mid := parts[1..|parts| - 1];
      assert parts == [parts[0]] + (mid + [parts[|parts| - 1]]);
      NonEmptyAppend([parts[0]], mid + [parts[|parts| - 1]]);
      NonEmptyAppend(mid, [parts[|parts| - 1]]);
    }
  }

  lemma {:induction false} SplitSnoc(s: string, c: char, sep: char -> bool)
    requires sep(c)
    ensures Split(s + [c], sep) == Split(s, sep) + [""]
  {
    if s == "" {
      assert ([c] + [])[1..] == "" && s + [c] == [c];
    } else {
      assert (s + [c])[1..] == s[1..] + [c];
      SplitSnoc(s[1..], c, sep);
    }
  }

  lemma {:induction false} FieldsTrim(s: string, sep: char -> bool)
    ensures Fields(Trim(s, sep), sep) == Fields(s, sep)
    ensures var t := Trim(s, sep); t != "" ==> !sep(t[0]) && !sep(t[|t| - 1])
    decreases |s|
  {
    if s != "" {
      var n := |s| - 1;
      if sep(s[0]) {
        FieldsTrim(s[1..], sep);
        assert Split(s, sep) == [""] + Split(s[1..], sep);
        NonEmptyOne("");
        NonEmptyAppend([""], Split(s[1..], sep));
      } else if sep(s[n]) {
        FieldsTrim(s[..n], sep);
        assert s == s[..n] + [s[n]];
        SplitSnoc(s[..n], s[n], sep);
        NonEmptyAppend(Split(s[..n], sep), [""]);
        NonEmptyOne("");
      }
    }
  }

  // Changing characters, and separators that agree

  function Mapped(s: string, f: char -> char): string {
    seq(|s|, i requires 0 <= i < |s| => f(s[i]))
  }

  function AllMapped(parts: seq<string>, f: char -> char): seq<string> {
    seq(|parts|, i requires 0 <= i < |parts| => Mapped(parts[i], f))
  }

  ghost predicate KeepsSeparators(s: string, f: char -> char, sep: char -> bool) {
    forall i :: 0 <= i < |s| ==> sep(f(s[i])) == sep(s[i])
  }

  lemma MappedCons(c: char, s: string, f: char -> char)
    ensures Mapped([c] + s, f) == [f(c)] + Mapped(s, f)
  {
  }

  lemma AllMappedCons(p: string, parts: seq<string>, f: char -> char)
    ensures AllMapped([p] + parts, f) == [Mapped(p, f)] + AllMapped(parts, f)
  {
    hide Mapped;
  }

  lemma {:induction false} SplitMapped(s: string, f: char -> char, sep: char -> bool)
    requires KeepsSeparators(s, f, sep)
    ensures Split(Mapped(s, f), sep) == AllMapped(Split(s, sep), f)
  {
    hide Mapped, AllMapped;
    if s == "" {
      assert Mapped("", f) == "" && AllMapped([""], f) == [""] by { NothingMapped(f); }
    } else {
      var c, rest := s[0], Split(s[1..], sep);
      assert s == [c] + s[1..];
      MappedCons(c, s[1..], f);
      SplitMapped(s[1..], f, sep);
      if sep(c) {
        AllMappedCons("", rest, f);
        NothingMapped(f);
      } else {
        assert rest == [rest[0]] + rest[1..];
        AllMappedCons(rest[0], rest[1..], f);
        AllMappedCons([c] + rest[0], rest[1..], f);
        MappedCons(c, rest[0], f);
      }
    }
  }

  lemma NothingMapped(f: char -> char)
    ensures Mapped("", f) == "" && AllMapped([""], f) == [""]
  {
  }

  lemma {:induction false} NonEmptyMapped(parts: seq<string>, f: char -> char)
    ensures NonEmpty(AllMapped(parts, f)) == AllMapped(NonEmpty(parts), f)
  {
    if parts != [] {
      NonEmptyMapped(parts[1..], f);
      assert parts == [parts[0]] + parts[1..];
      AllMappedCons(parts[0], parts[1..], f);
      AllMappedCons(parts[0], NonEmpty(parts[1..]), f);
      assert Mapped(parts[0], f) == "" <==> parts[0] == "";
    }
  }

  ghost predicate Agree(s: string, sep: char -> bool, sep': char -> bool) {
    forall i :: 0 <= i < |s| ==> sep(s[i]) == sep'(s[i])
  }

  lemma {:induction false} SplitAgrees(s: string, sep: char -> bool, sep': char -> bool)
    requires Agree(s, sep, sep')
    ensures Split(s, sep) == Split(s, sep')
  {
    if s != "" {
      SplitAgrees(s[1..], sep, sep');
    }
  }

  // Where the characters go

  lemma {:induction false} SplitHolds(s: string, i: nat, sep: char -> bool) returns (k: nat)
    requires i < |s| && !sep(s[i])
    ensures k < |Split(s, sep)| && s[i] in Split(s, sep)[k]
  {
    if i == 0 {
      k := 0;
    } else {
      k := SplitHolds(s[1..], i - 1, sep);
      if sep(s[0]) {
        k := k + 1;
      }
    }
  }

  lemma {:induction false} NonEmptyMembers(parts: seq<string>, p: string)
    ensures p in NonEmpty(parts) <==> p in parts && p != ""
  {
    if parts != [] {
      NonEmptyMembers(parts[1..], p);
      assert parts == [parts[0]] + parts[1..];
    }
  }

  /** Every character that is no separator is in some field. */
  lemma FieldHolds(s: string, i: nat, sep: char -> bool) returns (w: string)
    requires i < |s| && !sep(s[i])
    ensures w in Fields(s, sep) && s[i] in w
  {
    var k := SplitHolds(s, i, sep);
    w := Split(s, sep)[k];
    NonEmptyMembers(Split(s, sep), w);
  }

  lemma FieldsAreFree(s: string, sep: char -> bool, w: string)
    requires w in Fields(s, sep)
    ensures Free(w, sep)
  {
    NonEmptyMembers(Split(s, sep), w);
    SplitIsFree(s, sep);
  }
}
