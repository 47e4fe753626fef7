/** The HTTP GET requests the script sends to the learning-management API, in the order it
    sends them. Their answers are inputs of the model; only the fact that a request is made
    is recorded. */
module Requests {

  datatype Request =
    | GetFolders               // GET {base}/api/v1/courses/{course}/folders
    | GetFiles(folderId: int)  // GET {base}/api/v1/folders/{folderId}/files
    | GetFile(url: string)     // GET {url} of one CSV attachment
}
