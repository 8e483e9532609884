/** The `.gitignore` update (src/core/gitignore.ts): the content
    `ensureCyteIgnored` leaves in the file, given the file's current content
    (None when there is no file). Reading and writing the file are outside
    the model. */
module Gitignore {
  import opened Wrappers
  import opened Text

  /** `ignoreEntry`. */
  const IgnoreEntry: string := "cyte/"

  /** A trimmed line that already ignores the output directory. */
  predicate IsCyteEntry(line: string) {
    line == "cyte/" || line == "/cyte" || line == "/cyte/" || line == "cyte"
  }

  /** `hasEntry`: some line of the content (split at `\r?\n`), trimmed, is an
      entry for the output directory. */
  predicate HasEntry(content: string) {
    exists line :: line in SplitLines(content) && IsCyteEntry(Trim(line))
  }

  /** The separator `ensureCyteIgnored` writes before the entry. */
  function Separator(content: string): (prefix: string)
    ensures prefix == "\n" <==> content != "" && !EndsWith(content, "\n")
    ensures prefix == "" || prefix == "\n"
  {
    if |content| > 0 && !EndsWith(content, "\n") then "\n" else ""
  }

  /** The file's content after `ensureCyteIgnored`. */
  function EnsureIgnored(existing: Option<string>): (r: string)
    ensures existing.None? ==> r == "cyte/\n"
    ensures existing.Some? && HasEntry(existing.value) ==> r == existing.value
    ensures existing.Some? && !HasEntry(existing.value) ==>
              && |existing.value| <= |r| && r[..|existing.value|] == existing.value
              && EndsWith(r, "cyte/\n")
              && r == existing.value + Separator(existing.value) + "cyte/\n"
  {
    match existing
    case None => IgnoreEntry + "\n"
    case Some(content) =>
      if HasEntry(content) then content
      else
        var r := content + Separator(content) + IgnoreEntry + "\n";
        assert r[|r| - 6..] == "cyte/\n";
        assert r[..|content|] == content;
        r
  }

  /** The entry as the last line makes the content have an entry. */
  lemma EntryLineFound(a: string)
    ensures HasEntry(a + "\n" + "cyte/\n")
  {
    var tail := "cyte/\n";
    assert IndexOf(tail, '\n') == Some(5) by {
      assert tail[..5] == "cyte/" && '\n' !in tail[..5];
    }
    assert tail[..5] == "cyte/" && tail[6..] == "";
    assert SplitLines(tail) == [DropCarriageReturn("cyte/")] + SplitLines("");
    assert Trim("cyte/") == "cyte/" by {
      TrimOfUnpadded("cyte/");
    }
    SplitLinesKeepsLaterLines(a, tail);
    assert "cyte/" in SplitLines(a + "\n" + tail);
  }

  /** After an update the content has an entry. */
  lemma UpdatedHasEntry(existing: Option<string>)
    ensures HasEntry(EnsureIgnored(existing))
  {
    var r := EnsureIgnored(existing);
    if existing.None? {
      EntryOfAlone();
    } else if !HasEntry(existing.value) {
      var content := existing.value;
      if content == "" {
        assert r == "cyte/\n";
        EntryOfAlone();
      } else if EndsWith(content, "\n") {
        var a := content[..|content| - 1];
        assert content == a + "\n" by {
          assert content[|content| - 1..] == "\n";
        }
        assert r == a + "\n" + "cyte/\n";
        EntryLineFound(a);
      } else {
        assert r == content + "\n" + "cyte/\n";
        EntryLineFound(content);
      }
    }
  }

  lemma EntryOfAlone()
    ensures HasEntry("cyte/\n")
  {
    var tail := "cyte/\n";
    assert IndexOf(tail, '\n') == Some(5) by {
      assert tail[..5] == "cyte/" && '\n' !in tail[..5];
    }
    assert tail[..5] == "cyte/" && tail[6..] == "";
    assert SplitLines(tail) == [DropCarriageReturn("cyte/")] + SplitLines("");
    assert Trim("cyte/") == "cyte/" by {
      TrimOfUnpadded("cyte/");
    }
    assert "cyte/" in SplitLines(tail);
  }

  /** Updating twice leaves what updating once left. */
  lemma EnsureIgnoredIdempotent(existing: Option<string>)
    ensures EnsureIgnored(Some(EnsureIgnored(existing))) == EnsureIgnored(existing)
  {
    UpdatedHasEntry(existing);
  }
}
