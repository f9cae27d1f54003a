/**
 * The test `DebouncedHandler.on_any_event` applies to each filesystem
 * notification before it may schedule a commit: directory events are
 * dropped, and so is every path that, once each backslash is read as a
 * slash, contains "/.git/".
 */
module EventFilter {

  /** A filesystem notification as the handler sees it. */
  datatype ChangeEvent = ChangeEvent(srcPath: string, isDirectory: bool)

  /** The substring whose presence marks a path inside the repository metadata. */
  const GIT_MARKER: string := "/.git/"

  /** `s.replace(from, to)` for a single character, scanning left to right. */
  function ReplaceChar(s: string, from: char, to: char): string
  {
    if s == [] then [] else [if s[0] == from then to else s[0]] + ReplaceChar(s[1..], from, to)
  }

  /** The path with every `\` turned into `/`. */
  function Normalize(path: string): string
  {
    ReplaceChar(path, '\\', '/')
  }

  /** `sub` is found in `s` starting at index `i`. */
  predicate OccursAt(s: string, sub: string, i: nat)
  {
    i + |sub| <= |s| && s[i..i + |sub|] == sub
  }

  /** Python's `sub in s`, as a left-to-right scan. */
  function Contains(s: string, sub: string): bool
    decreases |s|
  {
    if |s| < |sub| then false
    else if s[..|sub|] == sub then true
    else Contains(s[1..], sub)
  }

  /** True when the event's path points inside a `.git` directory. */
  predicate IsGitInternal(path: string)
  {
    Contains(Normalize(path), GIT_MARKER)
  }

  /** The events that reach `_schedule`. */
  predicate Qualifies(ev: ChangeEvent)
  {
    !ev.isDirectory && !IsGitInternal(ev.srcPath)
  }

  /** Either path separator the filter accepts. */
  predicate IsSeparator(c: char)
  {
    c == '/' || c == '\\'
  }

  /** Characters `i` to `i + 5` of `path` are a separator, ".git", and a separator. */
  predicate GitComponentAt(path: string, i: nat)
  {
    i + 6 <= |path| && IsSeparator(path[i]) && path[i + 1] == '.' && path[i + 2] == 'g'
    && path[i + 3] == 'i' && path[i + 4] == 't' && IsSeparator(path[i + 5])
  }

  /** Replacing keeps the length and rewrites exactly the `from` characters. */
  lemma {:induction false} ReplaceCharAt(s: string, from: char, to: char)
    ensures |ReplaceChar(s, from, to)| == |s|
    ensures forall i :: 0 <= i < |s| ==> ReplaceChar(s, from, to)[i] == if s[i] == from then to else s[i]
  {
    if s != [] {
      ReplaceCharAt(s[1..], from, to);
    }
  }

  /** Normalisation leaves no backslash and is idempotent. */
  lemma NormalizeIdempotent(path: string)
    ensures '\\' !in Normalize(path)
    ensures Normalize(Normalize(path)) == Normalize(path)
  {
    ReplaceCharAt(path, '\\', '/');
    ReplaceCharAt(Normalize(path), '\\', '/');
  }

  /** The scan finds `sub` exactly when `sub` occurs at some index. */
  lemma {:induction false} ContainsIff(s: string, sub: string)
    ensures Contains(s, sub) <==> exists i: nat :: OccursAt(s, sub, i)
  {
    if |s| < |sub| {
      forall i: nat ensures !OccursAt(s, sub, i) {
      }
    } else if s[..|sub|] == sub {
      assert OccursAt(s, sub, 0);
    } else {
      ContainsIff(s[1..], sub);
      if Contains(s[1..], sub) {
        var i: nat :| OccursAt(s[1..], sub, i);
        assert s[1..][i..i + |sub|] == s[i + 1..i + 1 + |sub|];
        assert OccursAt(s, sub, i + 1);
      } else {
        forall i: nat ensures !OccursAt(s, sub, i) {
          if i == 0 {
            assert s[0..|sub|] == s[..|sub|];
          } else if i + |sub| <= |s| {
            assert s[1..][i - 1..i - 1 + |sub|] == s[i..i + |sub|];
            assert !OccursAt(s[1..], sub, i - 1);
          }
        }
      }
    }
  }

  /**
   * A path is ignored as repository metadata exactly when it holds ".git"
   * between two separators, each of them `/` or `\`.
   */
  lemma GitInternalIff(path: string)
    ensures IsGitInternal(path) <==> exists i: nat :: GitComponentAt(path, i)
  {
    var n := Normalize(path);
    ReplaceCharAt(path, '\\', '/');
    ContainsIff(n, GIT_MARKER);
    forall i: nat ensures OccursAt(n, GIT_MARKER, i) <==> GitComponentAt(path, i) {
      if i + 6 <= |path| {
        assert n[i..i + 6] == [n[i], n[i + 1], n[i + 2], n[i + 3], n[i + 4], n[i + 5]];
      }
    }
  }

  /** Any path below a `.git` directory is ignored, whichever separators it uses. */
  lemma GitDirectoryIgnored(root: string, before: char, after: char, rest: string, isDirectory: bool)
    requires IsSeparator(before) && IsSeparator(after)
    ensures !Qualifies(ChangeEvent(root + [before] + ".git" + [after] + rest, isDirectory))
  {
    var path := root + [before] + ".git" + [after] + rest;
    assert GitComponentAt(path, |root|);
    GitInternalIff(path);
  }

  /** Directory events never qualify, whatever their path. */
  lemma DirectoryEventIgnored(path: string)
    ensures !Qualifies(ChangeEvent(path, true))
  {
  }

  /** A path inside `.git` stays inside `.git` when it is extended on either side. */
  lemma GitInternalExtends(prefix: string, path: string, suffix: string)
    requires IsGitInternal(path)
    ensures IsGitInternal(prefix + path + suffix)
  {
    GitInternalIff(path);
    var i: nat :| GitComponentAt(path, i);
    var whole := prefix + path + suffix;
    forall k | 0 <= k < |path| ensures whole[|prefix| + k] == path[k] {
    }
    assert GitComponentAt(whole, |prefix| + i);
    GitInternalIff(whole);
  }

  /** A bare file name, with no separator in it, is never taken for repository metadata. */
  lemma NoSeparatorQualifies(path: string)
    requires forall i :: 0 <= i < |path| ==> !IsSeparator(path[i])
    ensures Qualifies(ChangeEvent(path, false))
  {
    GitInternalIff(path);
  }

  /** The Windows-style path `C:\repo\.git\index` is ignored. */
  lemma WindowsGitPathIgnored()
    ensures !Qualifies(ChangeEvent("C:\\repo\\.git\\index", false))
  {
    GitDirectoryIgnored("C:\\repo", '\\', '\\', "index", false);
    assert "C:\\repo" + ['\\'] + ".git" + ['\\'] + "index" == "C:\\repo\\.git\\index";
  }

  /** `repo/x.git/y` is not ignored: ".git" there is not preceded by a separator. */
  lemma NameEndingInDotGitQualifies()
    ensures Qualifies(ChangeEvent("repo/x.git/y", false))
  {
    var path := "repo/x.git/y";
    forall i: nat ensures !GitComponentAt(path, i) {
      if i + 6 <= |path| {
        assert path[4] == '/' && path[5] == 'x' && path[10] == '/';
      }
    }
    GitInternalIff(path);
  }
}
