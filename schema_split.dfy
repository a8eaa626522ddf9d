/**
 * The statement pipeline of the schema bootstrap:
 * `schemaSql.split(';').map(s => s.trim()).filter(s => s.length > 0)`.
 */
module SchemaSplit {

  const Sep: char := ';'

  /** The characters `String.prototype.trim` removes: WhiteSpace and LineTerminator. */
  predicate IsSpace(c: char) {
    var n := c as int;
    n == 0x09 || n == 0x0A || n == 0x0B || n == 0x0C || n == 0x0D || n == 0x20 ||
    n == 0xA0 || n == 0x1680 || (0x2000 <= n <= 0x200A) || n == 0x2028 || n == 0x2029 ||
    n == 0x202F || n == 0x205F || n == 0x3000 || n == 0xFEFF
  }

  /** Number of separators in `s`. */
  function Count(s: string): nat {
    if s == [] then 0 else (if s[0] == Sep then 1 else 0) + Count(s[1..])
  }

  /** `s.split(';')`: the maximal separator-free pieces, empty ones included. */
  function Split(s: string): (parts: seq<string>)
    ensures |parts| == Count(s) + 1
    ensures forall i :: 0 <= i < |parts| ==> Sep !in parts[i]
  {
    if s == [] then [""]
    else
      var rest := Split(s[1..]);
      if s[0] == Sep then [""] + rest
      else [[s[0]] + rest[0]] + rest[1..]
  }

  /** `parts.join(';')`. */
  function Join(parts: seq<string>): string
    requires |parts| >= 1
  {
    if |parts| == 1 then parts[0] else parts[0] + [Sep] + Join(parts[1..])
  }

  /** Splitting loses nothing: joining the pieces gives the script back. */
  lemma {:induction false} JoinSplit(s: string)
    ensures Join(Split(s)) == s
  {
    if s != [] {
      JoinSplit(s[1..]);
      var rest := Split(s[1..]);
      if s[0] != Sep {
        if |rest| == 1 {
          assert Split(s) == [[s[0]] + rest[0]];
        } else {
          assert Split(s)[1..] == rest[1..];
        }
      } else {
        assert Split(s)[1..] == rest;
      }
    }
  }

  /** Splitting a join of separator-free pieces gives exactly those pieces back. */
  lemma {:induction false} SplitJoin(parts: seq<string>)
    requires |parts| >= 1
    requires forall i :: 0 <= i < |parts| ==> Sep !in parts[i]
    ensures Split(Join(parts)) == parts
  {
    if |parts| == 1 {
      SplitPiece(parts[0], []);
      assert parts[0] + [] == parts[0];
    } else {
      var tail := Join(parts[1..]);
      SplitJoin(parts[1..]);
      SplitAtSep(tail);
      SplitPiece(parts[0], [Sep] + tail);
      assert parts[0] + [Sep] + tail == parts[0] + ([Sep] + tail);
      assert parts[0] + "" == parts[0];
      assert parts == [parts[0]] + parts[1..];
    }
  }

  /** A separator-free prefix becomes the start of the first piece. */
  lemma {:induction false} SplitPiece(p: string, s: string)
    requires Sep !in p
    ensures Split(p + s) == [p + Split(s)[0]] + Split(s)[1..]
  {
    var tail := Split(s);
    if p != [] {
      assert (p + s)[0] == p[0];
      assert (p + s)[1..] == p[1..] + s;
      SplitPiece(p[1..], s);
      var rest := Split(p[1..] + s);
      assert rest[0] == p[1..] + tail[0];
      assert rest[1..] == tail[1..];
      assert [p[0]] + (p[1..] + tail[0]) == p + tail[0];
    } else {
      assert p + s == s;
      assert p + tail[0] == tail[0];
      assert tail == [tail[0]] + tail[1..];
    }
  }

  lemma SplitAtSep(s: string)
    ensures Split([Sep] + s) == [""] + Split(s)
  {
    assert ([Sep] + s)[1..] == s;
  }

  /** The number of leading whitespace characters of `s`. */
  function LeadingSpaces(s: string): (n: nat)
    ensures n <= |s|
    ensures forall k :: 0 <= k < n ==> IsSpace(s[k])
    ensures n < |s| ==> !IsSpace(s[n])
  {
    if s != [] && IsSpace(s[0]) then 1 + LeadingSpaces(s[1..]) else 0
  }

  /** `s.trimEnd()`: the prefix left after dropping trailing whitespace. */
  function TrimEnd(s: string): (r: string)
    ensures |r| <= |s| && r == s[..|r|]
    ensures r == [] || !IsSpace(r[|r| - 1])
    ensures forall k :: |r| <= k < |s| ==> IsSpace(s[k])
  {
    if s != [] && IsSpace(s[|s| - 1]) then TrimEnd(s[..|s| - 1]) else s
  }

  /** `s.trim()`: `s` minus its leading and trailing whitespace, that is the
      slice of `s` that starts after the leading whitespace and stops before
      the trailing whitespace. */
  function Trim(s: string): (r: string)
    ensures r == [] || (!IsSpace(r[0]) && !IsSpace(r[|r| - 1]))
    ensures LeadingSpaces(s) + |r| <= |s|
    ensures r == s[LeadingSpaces(s)..LeadingSpaces(s) + |r|]
    ensures forall k :: LeadingSpaces(s) + |r| <= k < |s| ==> IsSpace(s[k])
    ensures r == [] <==> forall k :: 0 <= k < |s| ==> IsSpace(s[k])
  {
    var i := LeadingSpaces(s);
    var r := TrimEnd(s[i..]);
    assert r == s[i..i + |r|];
    r
  }

  /** `.map(s => s.trim())` */
  function TrimAll(parts: seq<string>): (r: seq<string>)
    ensures |r| == |parts|
    ensures forall i :: 0 <= i < |r| ==> r[i] == Trim(parts[i])
  {
    if parts == [] then [] else [Trim(parts[0])] + TrimAll(parts[1..])
  }

  /** `.filter(s => s.length > 0)` */
  function DropEmpty(parts: seq<string>): (r: seq<string>)
    ensures |r| <= |parts|
    ensures forall i :: 0 <= i < |r| ==> r[i] != "" && r[i] in parts
    ensures forall i :: 0 <= i < |parts| && parts[i] != "" ==> parts[i] in r
  {
    if parts == [] then []
    else (if parts[0] != "" then [parts[0]] else []) + DropEmpty(parts[1..])
  }

  /** Dropping blanks keeps order: it distributes over concatenation. */
  lemma {:induction false} DropEmptyAppend(a: seq<string>, b: seq<string>)
    ensures DropEmpty(a + b) == DropEmpty(a) + DropEmpty(b)
  {
    if a == [] {
      assert a + b == b;
    } else {
      assert (a + b)[1..] == a[1..] + b;
      DropEmptyAppend(a[1..], b);
    }
  }

  /** The statements the bootstrap runs, in order: at most one per
      separator plus one, each non-empty, separator-free and trimmed. */
  function Statements(script: string): (r: seq<string>)
    ensures |r| <= Count(script) + 1
    ensures forall i :: 0 <= i < |r| ==>
      r[i] != "" && Sep !in r[i] && !IsSpace(r[i][0]) && !IsSpace(r[i][|r[i]| - 1])
  {
    TrimmedPiecesWellFormed(Split(script));
    DropEmpty(TrimAll(Split(script)))
  }

  lemma TrimKeepsSeparatorsOut(s: string)
    requires Sep !in s
    ensures Sep !in Trim(s)
  {
    var r := Trim(s);
    var i := LeadingSpaces(s);
    forall k | 0 <= k < |r| ensures r[k] != Sep {
      assert r[k] == s[i + k];
    }
  }

  /** Trimming separator-free pieces and dropping the empty ones leaves
      non-empty, separator-free, trimmed strings. */
  lemma TrimmedPiecesWellFormed(parts: seq<string>)
    requires forall i :: 0 <= i < |parts| ==> Sep !in parts[i]
    ensures forall i :: 0 <= i < |DropEmpty(TrimAll(parts))| ==>
      var st := DropEmpty(TrimAll(parts))[i];
      st != "" && Sep !in st && !IsSpace(st[0]) && !IsSpace(st[|st| - 1])
  {
    var trimmed := TrimAll(parts);
    var stmts := DropEmpty(trimmed);
    forall i | 0 <= i < |stmts|
      ensures var st := stmts[i];
        st != "" && Sep !in st && !IsSpace(st[0]) && !IsSpace(st[|st| - 1])
    {
      var st := stmts[i];
      assert st in trimmed;
      var j :| 0 <= j < |trimmed| && trimmed[j] == st;
      TrimKeepsSeparatorsOut(parts[j]);
    }
  }

  /** A trimmed string is its own trim. */
  lemma TrimIdempotent(s: string)
    ensures Trim(Trim(s)) == Trim(s)
  {
    var r := Trim(s);
    assert LeadingSpaces(r) == 0;
    assert TrimEnd(r) == r;
    assert r[0..] == r;
  }

  /** A script of only whitespace and separators yields no statement. */
  lemma {:induction false} BlankScript(script: string)
    requires forall k :: 0 <= k < |script| ==> IsSpace(script[k]) || script[k] == Sep
    ensures Statements(script) == []
  {
    BlankPieces(script);
    NoNonEmpty(TrimAll(Split(script)));
  }

  lemma {:induction false} BlankPieces(script: string)
    requires forall k :: 0 <= k < |script| ==> IsSpace(script[k]) || script[k] == Sep
    ensures forall i, k :: 0 <= i < |Split(script)| && 0 <= k < |Split(script)[i]| ==> IsSpace(Split(script)[i][k])
  {
    if script != [] {
      BlankPieces(script[1..]);
      var rest := Split(script[1..]);
      if script[0] != Sep {
        var parts := Split(script);
        assert parts == [[script[0]] + rest[0]] + rest[1..];
        forall i, k | 0 <= i < |parts| && 0 <= k < |parts[i]| ensures IsSpace(parts[i][k]) {
          if i == 0 {
            if k > 0 { assert parts[0][k] == rest[0][k - 1]; }
          } else {
            assert parts[i] == rest[i];
          }
        }
      }
    }
  }

  lemma {:induction false} NoNonEmpty(parts: seq<string>)
    requires forall i :: 0 <= i < |parts| ==> parts[i] == ""
    ensures DropEmpty(parts) == []
  {
    if parts != [] { NoNonEmpty(parts[1..]); }
  }

  /** The statements are exactly the trimmed, non-empty segments between
      separators, in the order they appear in the script. */
  lemma StatementsOfSegments(segments: seq<string>)
    requires |segments| >= 1
    requires forall i :: 0 <= i < |segments| ==> Sep !in segments[i]
    ensures Statements(Join(segments)) == DropEmpty(TrimAll(segments))
  {
    SplitJoin(segments);
  }
}
