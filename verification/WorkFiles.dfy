/** The names of the work files of the background IOPS jobs:
    pkg/collect/host_filesystem_performance_linux.go. */
module WorkFiles {
  import Text

  /** The work file of a job. */
  function FileName(directory: string, read: bool, i: nat): string {
    directory + "/" + (if read then "background-read-" else "background-write-") + Text.PrintDigits(i)
  }

  /** Two jobs never share a work file, so a set of jobs stands for the files that exist. */
  lemma FileNamesDiffer(directory: string, read: bool, i: nat, read': bool, i': nat)
    requires FileName(directory, read, i) == FileName(directory, read', i')
    ensures read == read' && i == i'
  {
    var name, name' := FileName(directory, read, i), FileName(directory, read', i');
    assert name[|directory| + 1..][11] == (if read then 'r' else 'w');
    assert name'[|directory| + 1..][11] == (if read' then 'r' else 'w');
    var start := |directory| + if read then 17 else 18;
    assert name[start..] == Text.PrintDigits(i) && name'[start..] == Text.PrintDigits(i');
    Text.ParsePrintDigits(i);
    Text.ParsePrintDigits(i');
  }

  lemma FileNameOfEachKind(directory: string)
    ensures FileName(directory, true, 0) == directory + "/background-read-0"
    ensures FileName(directory, false, 0) == directory + "/background-write-0"
  {
    assert Text.PrintDigits(0) == "0";
    assert directory + "/" + "background-read-" + "0" == directory + "/background-read-0";
    assert directory + "/" + "background-write-" + "0" == directory + "/background-write-0";
  }
}
