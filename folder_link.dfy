/** The folder-link parser `extract_folder_id`: the leftmost-match, greedy
    semantics of `re.search(r'/folders/([a-zA-Z0-9_-]+)', link)` spelled out. */
module FolderLink {
  import opened Text

  datatype Option<T> = None | Some(value: T)

  /** The exception `extract_folder_id` raises, with its message. */
  datatype Error = ValueError(message: string)

  datatype Result<T> = Ok(value: T) | Err(error: Error)

  const InvalidLinkMessage: string := "Invalid Google Drive folder link."

  /** The literal part of the pattern. */
  const Marker: string := "/folders/"

  /** The character class `[a-zA-Z0-9_-]`. */
  predicate IsIdChar(c: char)
  {
    ('a' <= c <= 'z') || ('A' <= c <= 'Z') || ('0' <= c <= '9') || c == '_' || c == '-'
  }

  predicate IsId(s: string)
  {
    forall k :: 0 <= k < |s| ==> IsIdChar(s[k])
  }

  /** The whole pattern matches at `i`: the marker, then at least one id character. */
  predicate MatchesAt(s: string, i: nat)
  {
    OccursAt(s, Marker, i) && i + |Marker| < |s| && IsIdChar(s[i + |Marker|])
  }

  /** `re.search` tries start positions from left to right: `k` is the first that matches. */
  ghost predicate IsLeftmostMatch(s: string, k: nat)
  {
    MatchesAt(s, k) && forall j :: 0 <= j < k ==> !MatchesAt(s, j)
  }

  /** `id` is a greedy `+` run starting at `start`: non-empty, all id characters, and
      not followed by another id character. */
  ghost predicate IsMaximalRunAt(s: string, start: nat, id: string)
  {
    |id| > 0 && IsId(id) && OccursAt(s, id, start)
      && (start + |id| == |s| || !IsIdChar(s[start + |id|]))
  }

  /** What `match.group(1)` is when the search succeeds. */
  ghost predicate IsCapturedId(link: string, id: string)
  {
    exists k: nat :: IsLeftmostMatch(link, k) && IsMaximalRunAt(link, k + |Marker|, id)
  }

  /** Length of the longest run of id characters starting at `j`. */
  function IdRunLength(s: string, j: nat): (n: nat)
    requires j <= |s|
    ensures j + n <= |s|
    ensures forall k :: j <= k < j + n ==> IsIdChar(s[k])
    ensures j + n == |s| || !IsIdChar(s[j + n])
    decreases |s| - j
  {
    if j < |s| && IsIdChar(s[j]) then 1 + IdRunLength(s, j + 1) else 0
  }

  /** The first position at or after `i` where the pattern matches. */
  function FirstMatch(s: string, i: nat): (r: Option<nat>)
    requires i <= |s|
    ensures r.Some? ==> i <= r.value && MatchesAt(s, r.value)
    ensures r.Some? ==> forall j :: i <= j < r.value ==> !MatchesAt(s, j)
    ensures r.None? ==> forall j :: i <= j < |s| ==> !MatchesAt(s, j)
    decreases |s| - i
  {
    if i == |s| then None
    else if MatchesAt(s, i) then Some(i)
    else FirstMatch(s, i + 1)
  }

  /** `extract_folder_id`: the capture group of the leftmost match, or the
      invalid-link error when the pattern matches nowhere. */
  function ExtractFolderId(link: string): (r: Result<string>)
    ensures r.Ok? <==> exists i: nat :: MatchesAt(link, i)
    ensures r.Err? ==> r.error == ValueError(InvalidLinkMessage)
    ensures r.Ok? ==> |r.value| > 0 && IsId(r.value)
  {
    match FirstMatch(link, 0)
    case None => Err(ValueError(InvalidLinkMessage))
    case Some(k) =>
      var start := k + |Marker|;
      Ok(link[start..start + IdRunLength(link, start)])
  }

  /** The id returned is the maximal run after the leftmost match, and it is the
      only such id: `ExtractFolderId` returns exactly the ids that `IsCapturedId`
      describes. */
  lemma ExtractFolderIdIsCapture(link: string, id: string)
    ensures ExtractFolderId(link) == Ok(id) <==> IsCapturedId(link, id)
  {
    var m := FirstMatch(link, 0);
    if m.Some? {
      var k := m.value;
      var start := k + |Marker|;
      var run := link[start..start + IdRunLength(link, start)];
      assert ExtractFolderId(link) == Ok(run);
      assert IsLeftmostMatch(link, k);
      assert IsMaximalRunAt(link, start, run);
      if IsCapturedId(link, id) {
        var k': nat :| IsLeftmostMatch(link, k') && IsMaximalRunAt(link, k' + |Marker|, id);
        assert k' == k by {
          assert MatchesAt(link, k);
          assert MatchesAt(link, k');
        }
        MaximalRunUnique(link, start, id, run);
      }
    } else {
      assert ExtractFolderId(link).Err?;
      assert forall k: nat :: !IsLeftmostMatch(link, k);
    }
  }

  lemma MaximalRunUnique(s: string, start: nat, a: string, b: string)
    requires IsMaximalRunAt(s, start, a) && IsMaximalRunAt(s, start, b)
    ensures a == b
  {
    assert forall k :: start <= k < start + |a| ==> s[k] == a[k - start];
    assert forall k :: start <= k < start + |b| ==> s[k] == b[k - start];
    assert |a| == |b|;
    assert a == s[start..start + |a|] == b;
  }

  /** Round trip: a link built as `prefix + "/folders/" + id + suffix` yields `id`,
      provided the marker occurs in `prefix + "/folders/"` only at its end (so no
      earlier match exists) and `suffix` does not continue the id. */
  lemma {:induction false} RoundTrip(prefix: string, id: string, suffix: string)
    requires forall j: nat :: j < |prefix| ==> !OccursAt(prefix + Marker, Marker, j)
    requires |id| > 0 && IsId(id)
    requires suffix == [] || !IsIdChar(suffix[0])
    ensures ExtractFolderId(prefix + Marker + id + suffix) == Ok(id)
  {
    var link := prefix + Marker + id + suffix;
    var k := |prefix|;
    var start := k + |Marker|;
    assert link[..k + |Marker|] == prefix + Marker;
    forall j: nat | j < k
      ensures !MatchesAt(link, j)
    {
      assert link[j..j + |Marker|] == (prefix + Marker)[j..j + |Marker|];
      assert !OccursAt(prefix + Marker, Marker, j);
    }
    assert link[k..start] == Marker;
    assert link[start..start + |id|] == id;
    assert link[start] == id[0];
    assert IsLeftmostMatch(link, k);
    if suffix != [] {
      assert link[start + |id|] == suffix[0];
    }
    assert IsMaximalRunAt(link, start, id);
    ExtractFolderIdIsCapture(link, id);
  }

  /** The round trip with the hypothesis in plain terms: `prefix` holds no
      `/folders/` and does not end with `/folders` (which, followed by the marker's
      own `/folders/`, would form an earlier match). */
  lemma RoundTripPlainPrefix(prefix: string, id: string, suffix: string)
    requires forall j: nat :: !OccursAt(prefix, Marker, j)
    requires !EndsWith(prefix, Marker[..|Marker| - 1])
    requires |id| > 0 && IsId(id)
    requires suffix == [] || !IsIdChar(suffix[0])
    ensures ExtractFolderId(prefix + Marker + id + suffix) == Ok(id)
  {
    var s := prefix + Marker;
    forall j: nat | j < |prefix|
      ensures !OccursAt(s, Marker, j)
    {
      if j + |Marker| <= |prefix| {
        assert !OccursAt(prefix, Marker, j);
        assert s[j..j + |Marker|] == prefix[j..j + |Marker|];
      } else {
        // The window at j overlaps the appended marker, whose '/' sits at
        // offset d of the window; past its first character "/folders/" has a
        // '/' only at offset 8, where the window would have to begin with
        // the last eight characters of the prefix, "/folders".
        var d := |prefix| - j;
        assert s[j..j + |Marker|][d] == s[j + d] == '/';
        if d < 8 {
          assert Marker[d] != '/' by {
            assert 1 <= d;
            assert Marker[1..8] == "folders";
            assert Marker[d] == Marker[1..8][d - 1];
          }
          assert s[j..j + |Marker|] != Marker;
        } else {
          assert s[j..j + |Marker|][..8] == s[j..j + 8] == prefix[|prefix| - 8..];
          assert Marker[..8] != prefix[|prefix| - 8..];
          assert s[j..j + |Marker|] != Marker;
        }
      }
    }
    RoundTrip(prefix, id, suffix);
  }

  /** Why the plain round trip needs its second hypothesis: after the prefix
      `/folders` the appended marker's tail `folders/...` is read as the id. */
  lemma StraddlingPrefix()
    ensures ExtractFolderId("/folders" + Marker + "abc") == Ok("folders")
  {
    var link := "/folders" + Marker + "abc";
    assert link[0..9] == Marker;
    assert IsLeftmostMatch(link, 0);
    assert link[9..16] == "folders";
    assert IsMaximalRunAt(link, 9, "folders");
    ExtractFolderIdIsCapture(link, "folders");
  }

  /** A marker that is not followed by an id character does not match; the
      search moves on to the next one. */
  lemma SkipsEmptyOccurrence()
    ensures ExtractFolderId("/folders//folders/abc") == Ok("abc")
  {
    var link := "/folders//folders/abc";
    forall j: nat | j < 9 ensures !MatchesAt(link, j) {
      assert link[1..8] == "folders";
      if j == 0 {
        assert link[9] == '/';
      } else if j == 8 {
        assert link[8..17][1] == link[9] == '/' != Marker[1];
      } else {
        assert link[j] == link[1..8][j - 1] != '/';
        assert link[j..j + 9][0] == link[j];
      }
    }
    assert link[9..18] == Marker;
    assert IsLeftmostMatch(link, 9);
    assert link[18..21] == "abc";
    assert IsMaximalRunAt(link, 18, "abc");
    ExtractFolderIdIsCapture(link, "abc");
  }

  /** No id character after any marker: the invalid-link error. */
  lemma MarkerWithoutId()
    ensures ExtractFolderId("drive/folders/") == Err(ValueError(InvalidLinkMessage))
  {
    var link := "drive/folders/";
    assert |link| == 14;
    forall j: nat | j < 5
      ensures !OccursAt(link, Marker, j)
    {
      assert link[..5] == "drive";
      assert link[j] == link[..5][j] != '/';
    }
    assert FirstMatch(link, 0).None?;
  }
}
