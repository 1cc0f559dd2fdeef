/** Workload identifiers of the form `namespace/name`. */
module Workload {
  import opened Wrappers

  datatype WorkloadId = WorkloadId(namespace: string, name: string)

  datatype Error = InvalidFormat | InvalidCharacters

  predicate IsSegmentChar(c: char) {
    'a' <= c <= 'z' || '0' <= c <= '9' || c == '-' || c == '_'
  }

  predicate IsValidSegment(s: string) {
    forall i :: 0 <= i < |s| ==> IsSegmentChar(s[i])
  }

  // `split_once`.
  function SplitOnce(s: string, c: char): (r: Option<(string, string)>)
  {
    if s == [] then None
    else if s[0] == c then Some(([], s[1..]))
    else
      match SplitOnce(s[1..], c)
      case None => None
      case Some(parts) => Some(([s[0]] + parts.0, parts.1))
  }

  function Parse(raw: string): Result<WorkloadId, Error> {
    match SplitOnce(raw, '/')
    case None => Err(InvalidFormat)
    case Some((namespace, name)) =>
      if namespace == [] || name == [] then Err(InvalidFormat)
      else if !IsValidSegment(namespace) || !IsValidSegment(name) then Err(InvalidCharacters)
      else Ok(WorkloadId(namespace, name))
  }

  function Display(id: WorkloadId): string {
    id.namespace + ['/'] + id.name
  }

  // The identifiers `parse` can return; the fields are private to the crate.
  predicate IsWellFormed(id: WorkloadId) {
    id.namespace != [] && id.name != [] && IsValidSegment(id.namespace) && IsValidSegment(id.name)
  }

  // The split is at the first occurrence.
  lemma {:induction false} SplitOnceExactly(s: string, c: char, left: string, right: string)
    ensures SplitOnce(s, c) == Some((left, right)) <==> s == left + [c] + right && c !in left
    ensures SplitOnce(s, c) == None <==> c !in s
  {
    if s != [] {
      if s[0] == c {
        if left != [] && s == left + [c] + right { assert left[0] == c; }
        assert left == [] && s == left + [c] + right ==> right == s[1..];
        assert s == [c] + s[1..];
      } else {
        SplitOnceExactly(s[1..], c, if left == [] then [] else left[1..], right);
        assert s == [s[0]] + s[1..];
        if left != [] && left[0] == s[0] {
          assert left == [s[0]] + left[1..];
          assert left + [c] + right == [s[0]] + (left[1..] + [c] + right);
        }
        if s == left + [c] + right {
          assert left != [] && s[0] == left[0] && s[1..] == left[1..] + [c] + right;
        }
      }
    }
  }

  function Slashes(s: string): nat {
    if s == [] then 0 else (if s[0] == '/' then 1 else 0) + Slashes(s[1..])
  }

  lemma {:induction false} SlashesOfConcat(a: string, b: string)
    ensures Slashes(a + b) == Slashes(a) + Slashes(b)
  {
    if a == [] {
      assert a + b == b;
    } else {
      SlashesOfConcat(a[1..], b);
      assert (a + b)[1..] == a[1..] + b;
    }
  }

  lemma {:induction false} ValidSegmentsHaveNoSlash(s: string)
    requires IsValidSegment(s)
    ensures '/' !in s && Slashes(s) == 0
  {
    if s != [] {
      ValidSegmentsHaveNoSlash(s[1..]);
      assert IsSegmentChar(s[0]);
    }
  }

  // Parsing and displaying are inverse to each other on what is accepted, and a text is accepted
  // exactly when it displays a well-formed identifier.
  lemma ParseInvertsDisplay(raw: string, id: WorkloadId)
    ensures Parse(raw) == Ok(id) <==> IsWellFormed(id) && Display(id) == raw
  {
    SplitOnceExactly(raw, '/', id.namespace, id.name);
    if IsValidSegment(id.namespace) {
      ValidSegmentsHaveNoSlash(id.namespace);
    }
  }

  // A side of an accepted text: not empty, and of the ASCII lower-case letters, the digits, the
  // hyphen and the underscore.
  predicate IsSegment(s: string) {
    && s != ""
    && forall i :: 0 <= i < |s| ==>
         (0x61 <= s[i] as int <= 0x7A || 0x30 <= s[i] as int <= 0x39 || s[i] as int == 0x2D || s[i] as int == 0x5F)
  }

  lemma SegmentExactly(s: string)
    ensures IsSegment(s) <==> s != "" && IsValidSegment(s)
  {
    assert forall i :: 0 <= i < |s| && IsSegment(s) ==> IsSegmentChar(s[i]);
  }

  // What is accepted is two segments with a slash between them, and they are what is parsed.
  lemma AcceptedExactly(raw: string, namespace: string, name: string)
    ensures Parse(raw) == Ok(WorkloadId(namespace, name))
       <==> raw == namespace + "/" + name && IsSegment(namespace) && IsSegment(name)
  {
    ParseInvertsDisplay(raw, WorkloadId(namespace, name));
    SegmentExactly(namespace);
    SegmentExactly(name);
  }

  // Accepted identifiers contain exactly one slash.
  lemma AcceptedHasOneSlash(raw: string)
    requires Parse(raw).Ok?
    ensures Slashes(raw) == 1
  {
    var id := Parse(raw).value;
    ParseInvertsDisplay(raw, id);
    ValidSegmentsHaveNoSlash(id.namespace);
    ValidSegmentsHaveNoSlash(id.name);
    SlashesOfConcat(id.namespace, ['/']);
    SlashesOfConcat(id.namespace + ['/'], id.name);
    assert Slashes(['/']) == 1 + Slashes(['/'][1..]);
  }

  // The text splits at its first slash into two sides that are not empty, one of them invalid.
  predicate HasBadSegment(raw: string, left: string, right: string) {
    && raw == left + ['/'] + right && '/' !in left
    && left != [] && right != [] && !(IsValidSegment(left) && IsValidSegment(right))
  }

  // The error cases: no slash, or an empty side of the first one, is a format error; with two sides
  // that are not empty, a character outside the alphabet in either is an error of characters.
  lemma RejectedExactly(raw: string)
    ensures Parse(raw) == Err(InvalidFormat)
       <==> '/' !in raw || raw[0] == '/' || (exists left :: raw == left + ['/'] && '/' !in left)
    ensures Parse(raw) == Err(InvalidCharacters) <==> exists left, right :: HasBadSegment(raw, left, right)
  {
    forall left, right | HasBadSegment(raw, left, right) ensures SplitOnce(raw, '/') == Some((left, right)) {
      SplitOnceExactly(raw, '/', left, right);
    }
    var s := SplitOnce(raw, '/');
    SplitOnceExactly(raw, '/', [], []);
    if s.Some? {
      SplitOnceExactly(raw, '/', s.value.0, s.value.1);
      if s.value.1 == [] {
        assert raw == s.value.0 + ['/'];
      }
      assert Parse(raw) == Err(InvalidCharacters) ==> HasBadSegment(raw, s.value.0, s.value.1);
    }
    forall left: string | raw == left + ['/'] && '/' !in left ensures s == Some((left, [])) {
      assert raw == left + ['/'] + [];
      SplitOnceExactly(raw, '/', left, []);
    }
    if raw != [] && raw[0] == '/' {
      assert s == Some(([], raw[1..]));
    }
  }
}
