/**
 * `DebouncedHandler._has_changes`: the output of `git status --porcelain`
 * is a byte string, and the handler treats it as "changes pending" when
 * something is left after `bytes.strip()` removes ASCII whitespace from
 * both ends.
 */
module Status {

  newtype byte = x: int | 0 <= x < 256

  /** The bytes `bytes.strip()` removes: tab, line feed, vertical tab, form feed, carriage return, space. */
  predicate IsSpace(b: byte)
  {
    b == 9 || b == 10 || b == 11 || b == 12 || b == 13 || b == 32
  }

  /** `s.lstrip()`. */
  function StripStart(s: seq<byte>): seq<byte>
  {
    if |s| > 0 && IsSpace(s[0]) then StripStart(s[1..]) else s
  }

  /** `s.rstrip()`. */
  function StripEnd(s: seq<byte>): seq<byte>
  {
    if |s| > 0 && IsSpace(s[|s| - 1]) then StripEnd(s[..|s| - 1]) else s
  }

  /** `s.strip()`. */
  function Strip(s: seq<byte>): seq<byte>
  {
    StripEnd(StripStart(s))
  }

  /** `bool(stdout.strip())`. */
  predicate NonBlank(stdout: seq<byte>)
  {
    |Strip(stdout)| > 0
  }

  /** `StripStart` removes a run of whitespace from the front and nothing else. */
  lemma {:induction false} StripStartSpec(s: seq<byte>)
    ensures |StripStart(s)| <= |s|
    ensures StripStart(s) == s[|s| - |StripStart(s)|..]
    ensures forall k :: 0 <= k < |s| - |StripStart(s)| ==> IsSpace(s[k])
    ensures StripStart(s) != [] ==> !IsSpace(StripStart(s)[0])
  {
    if |s| > 0 && IsSpace(s[0]) {
      StripStartSpec(s[1..]);
      forall k | 0 < k < |s| - |StripStart(s)| ensures IsSpace(s[k]) {
        assert s[k] == s[1..][k - 1];
      }
    }
  }

  /** `StripEnd` removes a run of whitespace from the back and nothing else. */
  lemma {:induction false} StripEndSpec(s: seq<byte>)
    ensures |StripEnd(s)| <= |s|
    ensures StripEnd(s) == s[..|StripEnd(s)|]
    ensures forall k :: |StripEnd(s)| <= k < |s| ==> IsSpace(s[k])
    ensures StripEnd(s) != [] ==> !IsSpace(StripEnd(s)[|StripEnd(s)| - 1])
  {
    if |s| > 0 && IsSpace(s[|s| - 1]) {
      StripEndSpec(s[..|s| - 1]);
      forall k | |StripEnd(s)| <= k < |s| - 1 ensures IsSpace(s[k]) {
        assert s[k] == s[..|s| - 1][k];
      }
    }
  }

  /** The status output reports changes exactly when it holds a byte that is not whitespace. */
  lemma NonBlankIff(stdout: seq<byte>)
    ensures NonBlank(stdout) <==> exists k :: 0 <= k < |stdout| && !IsSpace(stdout[k])
  {
    var t := StripStart(stdout);
    StripStartSpec(stdout);
    StripEndSpec(t);
    var i := |stdout| - |t|;
    if NonBlank(stdout) {
      assert !IsSpace(Strip(stdout)[0]);
      assert Strip(stdout)[0] == stdout[i];
    } else {
      forall k | 0 <= k < |stdout| ensures IsSpace(stdout[k]) {
        if k >= i {
          assert stdout[k] == t[k - i];
        }
      }
    }
  }

  /** Stripping an already stripped output changes nothing. */
  lemma StripIdempotent(s: seq<byte>)
    ensures Strip(Strip(s)) == Strip(s)
  {
    var t := StripStart(s);
    StripStartSpec(s);
    StripEndSpec(t);
    var r := Strip(s);
    assert r != [] ==> r[0] == t[0];
    assert StripStart(r) == r;
    StripEndSpec(r);
    assert StripEnd(r) == r;
  }

  /** Porcelain output naming one modified file counts as a change. */
  lemma ModifiedFileIsChange()
    ensures NonBlank([32, 77, 32, 97, 10])
  {
    var out: seq<byte> := [32, 77, 32, 97, 10];
    assert !IsSpace(out[1]);
    NonBlankIff(out);
  }

  /** Output made only of newlines, tabs and spaces counts as no change. */
  lemma WhitespaceOnlyIsNoChange()
    ensures !NonBlank([10, 9, 32, 13, 10])
    ensures !NonBlank([])
  {
    NonBlankIff([10, 9, 32, 13, 10]);
    NonBlankIff([]);
  }
}
