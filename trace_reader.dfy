/** The trace reader of the command-line driver: the file's contents, given as
    its sequence of lines, filtered to the address lines. */
module TraceReader {
  import opened Base

  /** A line the reader lets through: an empty one, which it skips, or one
      whose first character is 'x'. */
  predicate Accepted(line: string)
  {
    line == [] || line[0] == 'x'
  }

  /** The lines in order with the empty ones dropped. */
  function NonEmpty(lines: seq<string>): seq<string>
    decreases |lines|
  {
    if lines == [] then []
    else
      var last := lines[|lines| - 1];
      NonEmpty(lines[..|lines| - 1]) + (if last != [] then [last] else [])
  }

  /** readAddresses: every non-empty line is kept, in order; the first
      non-empty line that does not start with 'x' makes the read fail with
      that line. */
  method ReadAddresses(lines: seq<string>) returns (r: Result<seq<string>>)
    ensures r.Ok? <==> forall i | 0 <= i < |lines| :: Accepted(lines[i])
    ensures r.Ok? ==> r.value == NonEmpty(lines)
    ensures r.Err? ==> exists k | 0 <= k < |lines| ::
      && !Accepted(lines[k])
      && (forall i | 0 <= i < k :: Accepted(lines[i]))
      && r.error == InvalidAddressFormat(lines[k])
  {
    var addresses: seq<string> := [];
    var i := 0;
    while i < |lines|
      invariant 0 <= i <= |lines|
      invariant forall j | 0 <= j < i :: Accepted(lines[j])
      invariant addresses == NonEmpty(lines[..i])
    {
      var line := lines[i];
      assert lines[..i + 1][..i] == lines[..i];
      if line != [] {
        if line[0] != 'x' {
          return Err(InvalidAddressFormat(line));
        }
        addresses := addresses + [line];
      }
      i := i + 1;
    }
    assert lines[..i] == lines;
    return Ok(addresses);
  }

  /** Every line kept is non-empty and is one of the input lines. */
  lemma {:induction false} NonEmptyMembers(lines: seq<string>)
    ensures forall x | x in NonEmpty(lines) :: x != [] && x in lines
    ensures forall x | x in lines && x != [] :: x in NonEmpty(lines)
    ensures |NonEmpty(lines)| <= |lines|
    decreases |lines|
  {
    if lines != [] {
      var init := lines[..|lines| - 1];
      NonEmptyMembers(init);
      assert lines == init + [lines[|lines| - 1]];
    }
  }

  /** When every line is accepted, every line kept is an address line. */
  lemma NonEmptyAddressLines(lines: seq<string>)
    requires forall i | 0 <= i < |lines| :: Accepted(lines[i])
    ensures forall i | 0 <= i < |NonEmpty(lines)| :: NonEmpty(lines)[i] != [] && NonEmpty(lines)[i][0] == 'x'
  {
    NonEmptyMembers(lines);
    forall i | 0 <= i < |NonEmpty(lines)|
      ensures NonEmpty(lines)[i] != [] && NonEmpty(lines)[i][0] == 'x'
    {
      var x := NonEmpty(lines)[i];
      assert x in NonEmpty(lines);
      var j :| 0 <= j < |lines| && lines[j] == x;
      assert Accepted(lines[j]);
    }
  }

  /** Reading two pieces of a file one after the other keeps the same lines. */
  lemma {:induction false} NonEmptyAppend(a: seq<string>, b: seq<string>)
    ensures NonEmpty(a + b) == NonEmpty(a) + NonEmpty(b)
    decreases |b|
  {
    if b == [] {
      assert a + b == a;
    } else {
      var init := b[..|b| - 1];
      var last := b[|b| - 1];
      assert (a + b)[..|a + b| - 1] == a + init;
      NonEmptyAppend(a, init);
    }
  }

  /** Empty lines change nothing, and a file without them is kept whole. */
  lemma {:induction false} NonEmptyIdentity(lines: seq<string>)
    requires forall i | 0 <= i < |lines| :: lines[i] != []
    ensures NonEmpty(lines) == lines
    decreases |lines|
  {
    if lines != [] {
      var init := lines[..|lines| - 1];
      assert forall i | 0 <= i < |init| :: init[i] == lines[i];
      NonEmptyIdentity(init);
      assert lines == init + [lines[|lines| - 1]];
    }
  }
}
