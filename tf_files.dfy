/** Which directory entries are taken to be Terraform files. */
module TfFiles {
  import opened Text

  /** The regular expression `\S+\.tf` matches at index 0 with the `.tf` at `j`. */
  predicate TfMatchAt(name: string, j: int) {
    1 <= j && j + 3 <= |name| && NoSpace(name[..j]) && name[j..j + 3] == ".tf"
  }

  /** What `re.compile('\S+\.tf').match(name)` decides: the match is anchored at the
      start of the name only, and `\S+` may backtrack to any `.tf` it spans. */
  ghost predicate MatchesTfPattern(name: string) {
    exists j :: TfMatchAt(name, j)
  }

  /** A `.tf` starts at index `m`. */
  predicate TfAt(name: string, m: int) {
    0 <= m && m + 3 <= |name| && name[m..m + 3] == ".tf"
  }

  /** A `.tf` that starts at or after `j` and ends within the first `w` characters. */
  predicate TfWithin(name: string, j: nat, w: nat)
    requires w <= |name|
    decreases w - j
  {
    j + 3 <= w && (TfAt(name, j) || TfWithin(name, j + 1, w))
  }

  /** The filter as a scan: a `.tf` not at the very start, inside the leading run of
      non-whitespace characters. An accepted name holds `.tf` somewhere past its first
      character. */
  predicate IsTfFile(name: string)
    ensures IsTfFile(name) ==> exists m :: 1 <= m && m + 3 <= |name| && TfAt(name, m)
  {
    TfWithinFinds(name, 1, SkipNonSpaces(name, 0));
    TfWithin(name, 1, SkipNonSpaces(name, 0))
  }

  lemma {:induction false} TfWithinFinds(name: string, j: nat, w: nat)
    requires w <= |name|
    ensures TfWithin(name, j, w) <==> exists m :: j <= m && m + 3 <= w && TfAt(name, m)
    decreases w - j
  {
    if j + 3 <= w {
      TfWithinFinds(name, j + 1, w);
      if !TfWithin(name, j, w) {
        forall m | j <= m && m + 3 <= w
          ensures !TfAt(name, m)
        {
          if m > j {
            assert j + 1 <= m;
          }
        }
      }
    }
  }

  /** The scan accepts exactly the names the regular expression matches. */
  lemma IsTfFileMatchesPattern(name: string)
    ensures IsTfFile(name) <==> MatchesTfPattern(name)
  {
    var w := SkipNonSpaces(name, 0);
    SkipNonSpacesRun(name, 0);
    TfWithinFinds(name, 1, w);
    if IsTfFile(name) {
      var m :| 1 <= m && m + 3 <= w && TfAt(name, m);
      assert NoSpace(name[..m]) by {
        forall k | 0 <= k < m ensures !IsSpace(name[..m][k]) {
          assert name[..m][k] == name[0..w][k];
        }
      }
      assert TfMatchAt(name, m);
    }
    if MatchesTfPattern(name) {
      var j :| TfMatchAt(name, j);
      assert j + 3 <= w;
      assert TfAt(name, j);
    }
  }

  /** Names the filter accepts: the `.tf` need not end the name. */
  lemma AcceptedExamples()
    ensures IsTfFile("main.tf") && IsTfFile("main.tfvars") && IsTfFile("a.tf.json")
  {
    AcceptedAt("main.tf", 4);
    AcceptedAt("main.tfvars", 4);
    AcceptedAt("a.tf.json", 1);
  }

  /** A name without whitespace, with a `.tf` at `m > 0`, is accepted. */
  lemma AcceptedAt(name: string, m: nat)
    requires NoSpace(name) && TfAt(name, m) && m >= 1
    ensures IsTfFile(name)
  {
    assert name[0..|name|] == name;
    SkipNonSpacesExact(name, 0, |name|);
    TfWithinFinds(name, 1, |name|);
  }

  /** Names the filter rejects: nothing before the `.tf`, or whitespace before it. */
  lemma RejectedExamples()
    ensures !IsTfFile(".tf") && !IsTfFile("my file.tf")
  {
    assert SkipNonSpaces(".tf", 0) == 3 by {
      SkipNonSpacesExact(".tf", 0, 3);
    }
    assert SkipNonSpaces("my file.tf", 0) == 2 by {
      SkipNonSpacesExact("my file.tf", 0, 2);
    }
  }

  /** The Terraform files among the walked entries, each given as its joined path and
      its bare name; the filter looks at the name only. */
  method GetTfFiles(entries: seq<(string, string)>) returns (files: set<string>)
    ensures files == set e | e in entries && IsTfFile(e.1) :: e.0
  {
    files := {};
    for n := 0 to |entries|
      invariant files == set e | e in entries[..n] && IsTfFile(e.1) :: e.0
    {
      var (path, name) := entries[n];
      if IsTfFile(name) {
        files := files + {path};
      }
      assert entries[..n + 1] == entries[..n] + [entries[n]];
    }
    assert entries[..|entries|] == entries;
  }
}
