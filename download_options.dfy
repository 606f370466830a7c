/**
 * The options dictionary that `Root.download` builds for the downloader
 * from the audio-only choice and the download directory.
 */
module DownloadOptions {

  /** What the options dictionary maps its keys to. */
  datatype OptionValue =
    | Text(text: string)
    | Flag(flag: bool)
    | RootLogger                  // the root widget, whose debug/warning/error methods receive the log
    | Callbacks(hooks: seq<Callback>)

  /** The progress callables handed to the downloader: a marker standing for the widget's own `self.prog_hook`. */
  datatype Callback = ProgHookMarker

  const VideoTemplate: string := "%(title)s.%(ext)s"
  const AudioTemplate: string := "%(title)s.mp3"
  const AudioFormatSelector: string := "bestaudio/best"
  const AudioCodec: string := "mp3"

  /** The keys every options dictionary holds, and those an audio-only download adds. */
  const CommonKeys: set<string> := {"logger", "progress_hooks", "outtmpl", "ignoreerrors", "updatetime"}
  const AudioKeys: set<string> := {"format", "audioformat"}

  /** The file name template, before the directory is put in front of it. */
  function FileTemplate(audioOnly: bool): string
  {
    if audioOnly then AudioTemplate else VideoTemplate
  }

  /** The part of `path` after its last '/', all of `path` when it has none. */
  function FileName(path: string): (r: string)
    ensures |r| <= |path| && r == path[|path| - |r|..]
    ensures '/' !in r
    ensures |r| < |path| ==> path[|path| - |r| - 1] == '/'
  {
    if path == [] || path[|path| - 1] == '/' then [] else FileName(path[..|path| - 1]) + [path[|path| - 1]]
  }

  /** The part of `path` before its last '/', empty when it has none. */
  function Directory(path: string): string
  {
    var name := FileName(path);
    if |name| < |path| then path[..|path| - |name| - 1] else []
  }

  lemma {:induction false} FileNameAfterSlash(dir: string, name: string)
    requires '/' !in name
    ensures FileName(dir + "/" + name) == name
  {
    var path := dir + "/" + name;
    if name != [] {
      assert path[..|path| - 1] == dir + "/" + name[..|name| - 1];
      FileNameAfterSlash(dir, name[..|name| - 1]);
      assert name == name[..|name| - 1] + [name[|name| - 1]];
    }
  }

  lemma FileTemplateHasNoSlash(audioOnly: bool)
    ensures '/' !in FileTemplate(audioOnly)
  {
    var t := FileTemplate(audioOnly);
    forall i | 0 <= i < |t| ensures t[i] != '/' {
    }
  }

  /**
   * The output template: the file name template, under `downPath` unless
   * that is empty. The file goes to `downPath` under the name the file
   * template gives it.
   */
  function OutputTemplate(audioOnly: bool, downPath: string): (t: string)
    ensures FileName(t) == FileTemplate(audioOnly)
    ensures Directory(t) == downPath
    ensures downPath == [] ==> t == FileTemplate(audioOnly)
  {
    FileTemplateHasNoSlash(audioOnly);
    if downPath != [] then
      FileNameAfterSlash(downPath, FileTemplate(audioOnly));
      downPath + "/" + FileTemplate(audioOnly)
    else
      FileNameOfName(FileTemplate(audioOnly));
      FileTemplate(audioOnly)
  }

  lemma {:induction false} FileNameOfName(name: string)
    requires '/' !in name
    ensures FileName(name) == name
  {
    if name != [] {
      assert name[|name| - 1] in name;
      FileNameOfName(name[..|name| - 1]);
      assert name == name[..|name| - 1] + [name[|name| - 1]];
    }
  }

  /** The `ydl_opts` dictionary of `Root.download`, built by the same updates in the same order. */
  method BuildOptions(audioOnly: bool, downPath: string) returns (opts: map<string, OptionValue>)
    ensures opts.Keys == if audioOnly then CommonKeys + AudioKeys else CommonKeys
    ensures opts["logger"] == RootLogger && opts["progress_hooks"] == Callbacks([ProgHookMarker])
    ensures opts["ignoreerrors"] == Flag(true) && opts["updatetime"] == Flag(false)
    ensures opts["outtmpl"] == Text(OutputTemplate(audioOnly, downPath))
    ensures audioOnly ==> opts["format"] == Text(AudioFormatSelector) && opts["audioformat"] == Text(AudioCodec)
  {
    opts := map[
      "logger" := RootLogger,
      "progress_hooks" := Callbacks([ProgHookMarker]),
      "outtmpl" := Text(VideoTemplate),
      "ignoreerrors" := Flag(true),
      "updatetime" := Flag(false)];
    if audioOnly {
      opts := opts["format" := Text(AudioFormatSelector)];
      opts := opts["outtmpl" := Text(AudioTemplate)];
      opts := opts["audioformat" := Text(AudioCodec)];
    }
    if downPath != [] {
      opts := opts["outtmpl" := Text(downPath + "/" + opts["outtmpl"].text)];
    }
  }
}
