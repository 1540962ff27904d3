/**
 * The version tasks `patch`, `feature` and `release`: each picks the publish
 * tag for its kind of version increment and rewrites the tag in the release
 * settings file `.publishrc`.
 */
module Version {
  import opened PublishTag

  /**
   * The importance-to-tag table: a patch is published under `dev`, a minor
   * or major increment under `latest`; any other key finds nothing.
   */
  function TagFor(importance: string): (tag: Option<string>)
    ensures tag == Some("dev") <==> importance == "patch"
    ensures tag == Some("latest") <==> importance == "minor" || importance == "major"
    ensures tag.None? <==> importance !in ["patch", "minor", "major"]
  {
    if importance == "patch" then Some("dev")
    else if importance == "minor" || importance == "major" then Some("latest")
    else None
  }

  /** A looked-up tag as a template literal prints it: a missing one prints as `undefined`. */
  function TagText(tag: Option<string>): string {
    match tag
    case Some(t) => t
    case None => "undefined"
  }

  /** The importance each version task passes on. */
  function TaskImportance(task: string): (importance: Option<string>)
    ensures importance == Some("patch") <==> task == "patch"
    ensures importance == Some("minor") <==> task == "feature"
    ensures importance == Some("major") <==> task == "release"
    ensures importance.Some? <==> task in ["patch", "feature", "release"]
  {
    if task == "patch" then Some("patch")
    else if task == "feature" then Some("minor")
    else if task == "release" then Some("major")
    else None
  }

  /**
   * JavaScript's `replaced || text` on two strings: the empty string is
   * falsy, so an empty replacement falls back to the original text.
   */
  function OrElse(replaced: string, text: string): (r: string)
    ensures r == [] <==> replaced == [] && text == []
  {
    if replaced != [] then replaced else text
  }

  /** The text of the settings file after the tag rewrite for the given importance. */
  function PublishedText(text: string, importance: string): string {
    UpdatePublishTag(text, TagText(TagFor(importance)))
  }

  /** The settings file the tag is rewritten in; its whole content is the text. */
  class SettingsFile {
    var text: string

    constructor (text0: string)
      ensures text == text0
    {
      text := text0;
    }
  }

  /**
   * `rewriteFile`: reads the file, replaces its text by the rewritten text
   * unless that is empty, and writes it back.  `writeOk` is whether the
   * write succeeds; a failed write is reported and leaves the file as it was.
   */
  method RewriteFile(replaceText: (string, string) -> string, tag: string, targetFile: SettingsFile, writeOk: bool)
    modifies targetFile
    ensures targetFile.text == if writeOk then OrElse(replaceText(old(targetFile.text), tag), old(targetFile.text))
                               else old(targetFile.text)
  {
    var text := targetFile.text;
    text := OrElse(replaceText(text, tag), text);
    if writeOk {
      targetFile.text := text;
    }
  }

  /**
   * The part of `updateVersion` that touches the settings file: the tag for
   * the importance is looked up and written over every publish tag.
   */
  method UpdateVersion(importance: string, publishrc: SettingsFile, writeOk: bool)
    modifies publishrc
    ensures publishrc.text == if writeOk then PublishedText(old(publishrc.text), importance) else old(publishrc.text)
  {
    var tag := TagFor(importance);
    ghost var before := publishrc.text;
    RewriteFile(UpdatePublishTag, TagText(tag), publishrc, writeOk);
    RewriteFallbackInert(before, TagText(tag));
  }

  /** The fallback of `rewriteFile` never applies to the publish-tag rewrite: its result is written as it is. */
  lemma RewriteFallbackInert(text: string, tag: string)
    ensures OrElse(UpdatePublishTag(text, tag), text) == UpdatePublishTag(text, tag)
  {
    UpdateEmptyIff(text, tag);
  }

  /** The three version tasks publish a patch under `dev` and a feature or release under `latest`. */
  lemma VersionTaskTags()
    ensures TagFor(TaskImportance("patch").value) == Some("dev")
    ensures TagFor(TaskImportance("feature").value) == Some("latest")
    ensures TagFor(TaskImportance("release").value) == Some("latest")
  {
  }

  /** Every tag the table can produce, `undefined` included, is safe to write as a value. */
  lemma TagTextSafe(importance: string)
    ensures IsSafeTag(TagText(TagFor(importance)))
  {
  }

  /**
   * Only the latest version task leaves its mark on the settings file:
   * rewriting for one importance and then for another gives the same text as
   * rewriting for the second alone.
   */
  lemma LatestTaskWins(text: string, first: string, second: string)
    ensures PublishedText(PublishedText(text, first), second) == PublishedText(text, second)
  {
    TagTextSafe(first);
    TagTextSafe(second);
    UpdateOverwrites(text, TagText(TagFor(first)), TagText(TagFor(second)));
  }

  /** Running the same version task twice leaves the settings file as one run does. */
  lemma RepeatedTaskStable(text: string, importance: string)
    ensures PublishedText(PublishedText(text, importance), importance) == PublishedText(text, importance)
  {
    LatestTaskWins(text, importance, importance);
  }

  /** A patch turns a settings file publishing under `latest` into one publishing under `dev`, and nothing else. */
  lemma PatchRetagsSettings()
    ensures PublishedText("{" + Replacement("latest") + "}", "patch") == "{" + Replacement("dev") + "}"
  {
    var field := Replacement("latest");
    var text := "{" + field + "}";
    var n := 1 + |field|;
    assert text[1..n] == field;
    assert IsSafeTag("latest") by {
      assert forall k :: 0 <= k < |"latest"| ==> 'a' <= "latest"[k] <= 'z';
    }
    ReplacementIsField("latest");
    forall p, m | 0 <= p < 1 && p < m <= |text| ensures !IsField(text[p..m]) {
      assert text[p..m][0] == '{' != Prefix[0];
    }
    LeftmostFieldReplaced(text, "dev", 1, n);
    assert text[n..] == "}";
    UnchangedWithoutField("}", "dev");
    assert text[..1] == "{";
  }
}
