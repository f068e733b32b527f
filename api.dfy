/** The values exchanged with Gitorious' internal API. The API client itself
    (HTTP requests and JSON decoding) is a collaborator whose answers are
    inputs of the model. */
module Api {

  /** The repository configuration the internal API returns for a request. */
  datatype RepoConfig = RepoConfig(
    realPath: string,
    fullPath: string,
    repositoryId: int,
    sshCloneUrl: string,
    httpCloneUrl: string,
    gitCloneUrl: string,
    customPreReceivePath: string,
    customPostReceivePath: string,
    customUpdatePath: string)

  datatype User = User(username: string)

  /** What `InternalApi.AuthenticateUser` returned: an error, no user (the
      credentials are wrong), or the user. */
  datatype AuthOutcome = AuthError(message: string) | NoUser | Authenticated(user: User)

  /** What `InternalApi.GetRepoConfig` returned: the configuration, an
      `*api.HttpError` carrying the API's status code, or any other error. */
  datatype ConfigOutcome = Config(config: RepoConfig) | HttpError(statusCode: int) | OtherError(message: string)
}
