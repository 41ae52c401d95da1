/** The exceptions a run can die of: Python raises them and nothing in the program catches them. */
module Faults {

  datatype Fault =
    | EndOfInput                     // input() on an exhausted script
    | DirectoryExists(path: string)  // makedirs on a path that is already there
    | FileMissing(path: string)      // open() of a file that is not in the archive
    | TagMissing(path: string)       // the EXIF DateTimeOriginal tag is absent
}
