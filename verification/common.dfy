/** Shared vocabulary: optional values, the exceptions the library raises,
    and the sequence and string helpers that PHP's array and string
    functions stand for in the rest of the model. */
module Common {

  /** PHP `null` versus a present value. */
  datatype Option<T> = None | Some(value: T) {
    function GetOr(default: T): T {
      match this
      case Some(v) => v
      case None => default
    }
  }

  /** The ways the modelled code fails. */
  datatype Error =
    | MissingFieldname(position: nat)  // "Missing key `fieldname` in facet definition ...", for the definition at `position`
    | EmptyCollection                  // `$this->first()::class` on an empty collection
    | UndefinedMethod(name: string)    // a static call of a method the class does not define
    | MethodOnArray(name: string)      // a method called on a plain PHP array

  datatype Result<T> = Ok(value: T) | Err(error: Error)

  /** Subject (model) ids are auto-increment keys. */
  type Id = nat

  /** `Str::slug`, left uninterpreted: every operation that needs it takes it as a parameter. */
  type Slugger = string -> string

  ghost predicate Distinct<T>(s: seq<T>) {
    forall i, j | 0 <= i < j < |s| :: s[i] != s[j]
  }

  /** `r` is `s` with some elements left out and the rest kept in order. */
  predicate Subsequence<T(==)>(r: seq<T>, s: seq<T>)
    decreases |s|
  {
    if |r| == 0 then true
    else if |s| == 0 then false
    else if r[0] == s[0] then Subsequence(r[1..], s[1..])
    else Subsequence(r, s[1..])
  }

  lemma {:induction false} SubsequenceDropHead<T>(r: seq<T>, s: seq<T>)
    requires |r| > 0 && Subsequence(r, s)
    ensures Subsequence(r[1..], s)
    decreases |s|, 1
  {
    if r[0] == s[0] {
      SubsequenceExtend(r[1..], s);
    } else {
      SubsequenceDropHead(r, s[1..]);
      SubsequenceExtend(r[1..], s);
    }
  }

  lemma {:induction false} SubsequenceExtend<T>(r: seq<T>, s: seq<T>)
    requires |s| > 0 && Subsequence(r, s[1..])
    ensures Subsequence(r, s)
    decreases |s|, 0
  {
    if |r| > 0 && r[0] == s[0] {
      SubsequenceDropHead(r, s[1..]);
    }
  }

  lemma {:induction false} SubsequenceRefl<T>(s: seq<T>)
    ensures Subsequence(s, s)
    decreases |s|
  {
    if |s| > 0 {
      SubsequenceRefl(s[1..]);
    }
  }

  lemma {:induction false} SubsequenceTrans<T>(a: seq<T>, b: seq<T>, c: seq<T>)
    requires Subsequence(a, b) && Subsequence(b, c)
    ensures Subsequence(a, c)
    decreases |c|
  {
    if |a| > 0 {
      if b[0] == c[0] {
        if a[0] == b[0] {
          SubsequenceTrans(a[1..], b[1..], c[1..]);
        } else {
          SubsequenceTrans(a, b[1..], c[1..]);
          SubsequenceExtend(a, c);
        }
      } else {
        SubsequenceTrans(a, b, c[1..]);
        SubsequenceExtend(a, c);
      }
    }
  }

  /** The order-preserving filter (`Collection::filter`, `array_intersect`, `whereIn`). */
  function Keep<T(!new)>(s: seq<T>, p: T -> bool): (r: seq<T>)
    ensures |r| <= |s|
    ensures forall x :: x in r <==> x in s && p(x)
    ensures Subsequence(r, s)
  {
    if |s| == 0 then []
    else
      var rest := Keep(s[1..], p);
      if p(s[0]) then
        assert ([s[0]] + rest)[1..] == rest;
        [s[0]] + rest
      else
        (SubsequenceExtend(rest, s); rest)
  }

  /** Keep takes every copy of a kept element and none of the others. */
  lemma {:induction false} KeepMultiset<T(!new)>(s: seq<T>, p: T -> bool)
    ensures forall x :: multiset(Keep(s, p))[x] == if p(x) then multiset(s)[x] else 0
  {
    if |s| > 0 {
      KeepMultiset(s[1..], p);
      assert s == [s[0]] + s[1..];
      assert multiset(s) == multiset{s[0]} + multiset(s[1..]);
      if p(s[0]) {
        assert multiset(Keep(s, p)) == multiset{s[0]} + multiset(Keep(s[1..], p));
      }
    }
  }

  lemma {:induction false} KeepAll<T(!new)>(s: seq<T>, p: T -> bool)
    requires forall x :: x in s ==> p(x)
    ensures Keep(s, p) == s
  {
    if |s| > 0 {
      KeepAll(s[1..], p);
      assert [s[0]] + s[1..] == s;
    }
  }

  lemma {:induction false} KeepAppend<T(!new)>(a: seq<T>, b: seq<T>, p: T -> bool)
    ensures Keep(a + b, p) == Keep(a, p) + Keep(b, p)
  {
    if |a| > 0 {
      var c := a + b;
      assert c[0] == a[0] && c[1..] == a[1..] + b;
      KeepAppend(a[1..], b, p);
      if p(a[0]) {
        assert Keep(c, p) == [a[0]] + Keep(c[1..], p);
        assert Keep(a, p) == [a[0]] + Keep(a[1..], p);
        assert [a[0]] + (Keep(a[1..], p) + Keep(b, p)) == ([a[0]] + Keep(a[1..], p)) + Keep(b, p);
      } else {
        assert Keep(c, p) == Keep(c[1..], p);
        assert Keep(a, p) == Keep(a[1..], p);
      }
    } else {
      assert a + b == b;
    }
  }

  /** The elements of `s` not in `seen`, each kept at its first occurrence. */
  function DedupFrom<T(==)>(s: seq<T>, seen: set<T>): seq<T> {
    if |s| == 0 then []
    else if s[0] in seen then DedupFrom(s[1..], seen)
    else [s[0]] + DedupFrom(s[1..], seen + {s[0]})
  }

  /** An element not yet seen is kept, and then counts as seen. */
  lemma DedupFresh<T>(before: seq<T>, rows: seq<T>, seen: set<T>, got: seq<T>)
    requires |rows| > 0 && rows[0] !in seen
    requires got == before + [rows[0]] + DedupFrom(rows[1..], seen + {rows[0]})
    ensures got == before + DedupFrom(rows, seen)
  {
    DedupFromFresh(rows, seen);
    AppendAssoc(before, rows[0], DedupFrom(rows[1..], seen + {rows[0]}));
  }

  lemma DedupFromFresh<T>(rows: seq<T>, seen: set<T>)
    requires |rows| > 0 && rows[0] !in seen
    ensures DedupFrom(rows, seen) == [rows[0]] + DedupFrom(rows[1..], seen + {rows[0]})
  {
  }

  lemma AppendAssoc<T>(before: seq<T>, x: T, rest: seq<T>)
    ensures before + [x] + rest == before + ([x] + rest)
  {
  }

  lemma {:induction false} DedupFromSpec<T(!new)>(s: seq<T>, seen: set<T>)
    ensures forall x :: x in DedupFrom(s, seen) <==> x in s && x !in seen
    ensures Distinct(DedupFrom(s, seen))
    ensures Subsequence(DedupFrom(s, seen), s)
  {
    if |s| > 0 {
      if s[0] in seen {
        DedupFromSpec(s[1..], seen);
        SubsequenceExtend(DedupFrom(s[1..], seen), s);
      } else {
        var rest := DedupFrom(s[1..], seen + {s[0]});
        DedupFromSpec(s[1..], seen + {s[0]});
        assert ([s[0]] + rest)[1..] == rest;
      }
    }
  }

  /** Distinct elements in order of first occurrence (PHP keys assigned twice keep their first position). */
  function Dedup<T(==,!new)>(s: seq<T>): (r: seq<T>)
    ensures forall x :: x in r <==> x in s
    ensures Distinct(r)
    ensures Subsequence(r, s)
  {
    DedupFromSpec(s, {});
    DedupFrom(s, {})
  }

  /** Position of the first occurrence of `x` in `s`. */
  function FirstIndex<T(==)>(s: seq<T>, x: T): (i: nat)
    requires x in s
    ensures i < |s| && s[i] == x
    ensures forall j | 0 <= j < i :: s[j] != x
  {
    if s[0] == x then 0 else 1 + FirstIndex(s[1..], x)
  }

  /** Every element kept comes from `s` and was not yet seen. */
  lemma {:induction false} DedupFromIn<T>(s: seq<T>, seen: set<T>, k: nat)
    requires k < |DedupFrom(s, seen)|
    ensures DedupFrom(s, seen)[k] in s && DedupFrom(s, seen)[k] !in seen
    decreases |s|
  {
    var r := DedupFrom(s, seen);
    if s[0] in seen {
      DedupFromIn(s[1..], seen, k);
      assert r[k] in s[1..];
    } else if k > 0 {
      assert r[k] == DedupFrom(s[1..], seen + {s[0]})[k - 1];
      DedupFromIn(s[1..], seen + {s[0]}, k - 1);
      assert r[k] in s[1..];
    }
  }

  lemma {:induction false} DedupFromOrder<T>(s: seq<T>, seen: set<T>, i: nat, j: nat)
    requires i < j < |DedupFrom(s, seen)|
    ensures DedupFrom(s, seen)[i] in s && DedupFrom(s, seen)[j] in s
    ensures FirstIndex(s, DedupFrom(s, seen)[i]) < FirstIndex(s, DedupFrom(s, seen)[j])
    decreases |s|
  {
    var r := DedupFrom(s, seen);
    DedupFromIn(s, seen, i);
    DedupFromIn(s, seen, j);
    if s[0] in seen {
      var rest := DedupFrom(s[1..], seen);
      assert r == rest;
      DedupFromOrder(s[1..], seen, i, j);
      assert FirstIndex(s, r[i]) == 1 + FirstIndex(s[1..], r[i]);
      assert FirstIndex(s, r[j]) == 1 + FirstIndex(s[1..], r[j]);
    } else {
      var rest := DedupFrom(s[1..], seen + {s[0]});
      assert r == [s[0]] + rest;
      assert r[j] == rest[j - 1];
      DedupFromIn(s[1..], seen + {s[0]}, j - 1);
      assert FirstIndex(s, r[j]) == 1 + FirstIndex(s[1..], r[j]);
      if i > 0 {
        assert r[i] == rest[i - 1];
        DedupFromIn(s[1..], seen + {s[0]}, i - 1);
        DedupFromOrder(s[1..], seen + {s[0]}, i - 1, j - 1);
        assert FirstIndex(s, r[i]) == 1 + FirstIndex(s[1..], r[i]);
      }
    }
  }

  /** Dedup lists the distinct elements in the order each first appears. */
  lemma DedupOrder<T(!new)>(s: seq<T>, i: nat, j: nat)
    requires i < j < |Dedup(s)|
    ensures FirstIndex(s, Dedup(s)[i]) < FirstIndex(s, Dedup(s)[j])
  {
    DedupFromOrder(s, {}, i, j);
  }

  /** Concatenation of a sequence of sequences. */
  function Concat<T>(ss: seq<seq<T>>): seq<T> {
    if |ss| == 0 then [] else ss[0] + Concat(ss[1..])
  }

  /** An element of one part is an element of the concatenation. */
  lemma {:induction false} ConcatMember<T>(ss: seq<seq<T>>, i: nat, x: T)
    requires i < |ss| && x in ss[i]
    ensures x in Concat(ss)
  {
    if i > 0 {
      ConcatMember(ss[1..], i - 1, x);
    }
  }

  /** Every element of the concatenation comes from some part. */
  lemma {:induction false} ConcatSource<T>(ss: seq<seq<T>>, x: T) returns (i: nat)
    requires x in Concat(ss)
    ensures i < |ss| && x in ss[i]
  {
    if x in ss[0] {
      i := 0;
    } else {
      var j := ConcatSource(ss[1..], x);
      i := j + 1;
    }
  }

  /** Concatenating one more part appends it. */
  lemma {:induction false} ConcatSnoc<T>(ss: seq<seq<T>>, i: nat)
    requires i < |ss|
    ensures Concat(ss[..i + 1]) == Concat(ss[..i]) + ss[i]
  {
    if i > 0 {
      assert ss[..i + 1][1..] == ss[1..][..i];
      assert ss[..i][1..] == ss[1..][..i - 1];
      ConcatSnoc(ss[1..], i - 1);
    } else {
      assert ss[..1] == [ss[0]];
      assert ss[..1][1..] == [];
    }
  }

  /** `implode($sep, $parts)`. */
  function Join(parts: seq<string>, sep: string): string {
    if |parts| == 0 then ""
    else if |parts| == 1 then parts[0]
    else parts[0] + sep + Join(parts[1..], sep)
  }

  lemma JoinPair(a: string, b: string, sep: string)
    ensures Join([a, b], sep) == a + sep + b
  {
    assert [a, b][1..] == [b];
  }

  /** `explode($sep, $s)` for a one-character separator. */
  function Split(s: string, sep: char): (parts: seq<string>)
    ensures |parts| >= 1
    ensures forall p :: p in parts ==> sep !in p
  {
    if |s| == 0 then [""]
    else
      var rest := Split(s[1..], sep);
      if s[0] == sep then [""] + rest
      else [[s[0]] + rest[0]] + rest[1..]
  }

  /** Splitting and joining on the same separator gives the string back. */
  lemma {:induction false} JoinSplit(s: string, sep: char)
    ensures Join(Split(s, sep), [sep]) == s
  {
    if |s| > 0 {
      var rest := Split(s[1..], sep);
      JoinSplit(s[1..], sep);
      if s[0] == sep {
        assert ([""] + rest)[1..] == rest;
        assert s == [s[0]] + s[1..];
      } else {
        var parts := [[s[0]] + rest[0]] + rest[1..];
        assert parts[1..] == rest[1..];
        if |rest| == 1 {
          assert s == [s[0]] + s[1..];
        } else {
          assert Join(rest, [sep]) == rest[0] + [sep] + Join(rest[1..], [sep]);
          assert s == [s[0]] + s[1..];
        }
      }
    }
  }

  /** A string splits into a single piece exactly when it has no separator. */
  lemma {:induction false} SplitSingle(s: string, sep: char)
    ensures |Split(s, sep)| == 1 <==> sep !in s
  {
    if |s| > 0 {
      SplitSingle(s[1..], sep);
      assert sep in s <==> s[0] == sep || sep in s[1..];
    }
  }

  /** `str_starts_with($s, $prefix)`. */
  predicate StartsWith(s: string, prefix: string) {
    |prefix| <= |s| && s[..|prefix|] == prefix
  }

  /** PHP's string form of a non-negative integer. */
  function NatToString(n: nat): (s: string)
    ensures |s| >= 1
    ensures forall c :: c in s ==> '0' <= c <= '9'
  {
    if n < 10 then ["0123456789"[n]]
    else NatToString(n / 10) + ["0123456789"[n % 10]]
  }
}
