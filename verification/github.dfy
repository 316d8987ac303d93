/** The records the widget receives from the GitHub API. Only the fields the
    comment-loading and bootstrap logic reads are kept. */
module GitHub {

  /** The viewer signed in to GitHub. */
  datatype User = User(login: string)

  /** An issue thread: its number, how many comments it holds, and whether
      it is locked against new comments. */
  datatype Issue = Issue(number: nat, comments: nat, locked: bool)

  /** One comment of an issue thread. */
  datatype IssueComment = IssueComment(id: nat, body: string)
}
