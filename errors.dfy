/**
  The ways a pipeline run stops: the `PipelineException`s the stages raise,
  the `ValueError`s of argument checks and unpacking, and a missing file or
  directory where the standard library raises `FileNotFoundError` (or
  `NotADirectoryError` when a directory is expected and a file is found).
 */
module Errors {

  datatype Option<T> = None | Some(value: T)

  datatype Error =
    | BadDirArguments              // create_output_dir: not exactly one of parent_dir, input_dir given
    | NoFastqFiles(dir: string)    // step 1: no `*.fastq*` file in the input directory
    | NoForwardReads(glob: string) // get_forward_fastq_files: the forward-read glob found nothing
    | EmptyCombineInput            // get_combined_file_name called with an empty list
    | NoOutputFiles(dir: string)   // complete_step: the stage left its directory empty
    | NoOtuFile(glob: string)      // step 9: unpacking the OTU glob's result found nothing
    | NotFound(path: string)       // os.listdir, os.remove or opening a file that does not exist
    | NotADirectory(path: string)  // os.listdir of a path that names a file

  datatype Result<T> = Success(value: T) | Failure(error: Error)
}
