/** The errors the issuer package returns, one constructor per distinct
    message of a returned `fmt.Errorf` error; wrapping with `%w` becomes a
    constructor holding its cause. The errors of `loadTokenExp` are only
    logged, so they have no constructor: an unknown expiry stands for all
    of them. */
module Errors {

  datatype Error =
    /** A `dex_file_` entry named a file that could not be read; carries the
        entry text after the prefix, as the message does. */
    | OpenEnvFile(entry: string)
    /** `dex_refresh_before` is set but is not a duration. */
    | ParseRefreshBefore(text: string)
    /** The configuration loader failed. */
    | LoadConfig(cause: Error)
    /** The exchange request could not be built (malformed endpoint). */
    | CreateRequest(endpoint: string)
    /** The transport failed to deliver the request or read the response. */
    | SendRequest(reason: string)
    /** The identity provider answered with a status other than 200. */
    | UnexpectedStatus(code: int)
    /** The 200 response body is not a token response. */
    | DecodeResponse
    /** The token exchange failed. */
    | IssueFailed(cause: Error)
    /** The credential file could not be created or truncated. */
    | CreateFile(path: string)
    /** Writing the token into the created file failed. */
    | WriteToken
    /** Persisting the new token failed. */
    | SaveToken(cause: Error)
}
