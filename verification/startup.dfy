/** How the server turns its parsed arguments and the music directory into
    the path the engine is opened with and the first play request
    (src/main.cpp:174-178, 192-196). */
module Startup {
  import opened Effects
  import opened Arguments

  /** The track path, the path the Sound object is built with, and the
      first engine call after `init()`. */
  datatype Plan = Plan(trackDir: string, soundPath: string, firstPlay: EngineCall)

  function StartupPlan(musicDir: string, parsed: ServerArgs): (p: Plan)
    // the track path is the music directory, then the subdirectory, then the track
    ensures p.trackDir == musicDir + parsed.subdirectory + parsed.trackName
    // the engine is opened on the music directory itself unless a subdirectory was given
    ensures parsed.subdirectory == "" ==> p.soundPath == musicDir
    ensures parsed.subdirectory != "" ==> p.soundPath == p.trackDir
    // either way it is opened on a prefix of the track path under the music directory
    ensures musicDir <= p.soundPath <= p.trackDir
    // without a track name the engine is opened exactly on the directory the track path names
    ensures parsed.trackName == "" ==> p.soundPath == p.trackDir
    // the first play names the track exactly when one was given
    ensures p.firstPlay == Play <==> parsed.trackName == ""
    ensures parsed.trackName != "" ==> p.firstPlay == PlayTrack(p.trackDir)
  {
    var trackDir := musicDir + parsed.subdirectory + parsed.trackName;
    var soundPath := if parsed.subdirectory == "" then musicDir else trackDir;
    var firstPlay := if parsed.trackName == "" then Play else PlayTrack(trackDir);
    assert musicDir + parsed.subdirectory <= trackDir;
    Plan(trackDir, soundPath, firstPlay)
  }
}
