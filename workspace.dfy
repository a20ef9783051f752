/**
 * The project directory as the installer and the commands see it: the contents of its
 * files by path, and the tracking file `.pushui/installed.json`, which is absent, holds
 * something that does not read back as JSON, or holds an installation record.
 */
module Workspace {

  import opened RegistryTypes

  datatype TrackerFile = Absent | Corrupt | Stored(installed: InstalledRegistry)

  datatype DiskState = DiskState(files: map<string, string>, tracker: TrackerFile)

  class Disk {
    var files: map<string, string>
    var tracker: TrackerFile

    function State(): DiskState
      reads this
    {
      DiskState(files, tracker)
    }

    constructor (s: DiskState)
      ensures State() == s
    {
      files := s.files;
      tracker := s.tracker;
    }

    /** `fs.pathExists(path)` */
    method PathExists(path: string) returns (b: bool)
      ensures b <==> path in files
    {
      b := path in files;
    }

    /** `fs.writeFile(path, content)` once it succeeds. */
    method WriteFile(path: string, content: string)
      modifies this
      ensures files == old(files)[path := content]
      ensures tracker == old(tracker)
    {
      files := files[path := content];
    }

    /** Reading the tracking file back. */
    method ReadTracker() returns (t: TrackerFile)
      ensures t == tracker
    {
      t := tracker;
    }

    /** `fs.writeJson` of the tracking file once it succeeds. */
    method WriteTracker(installed: InstalledRegistry)
      modifies this
      ensures tracker == Stored(installed)
      ensures files == old(files)
    {
      tracker := Stored(installed);
    }
  }
}
