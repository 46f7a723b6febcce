/** What every source connector speaks of: one change, and the ways a call fails. */
module Connector {
  import opened Prelude

  datatype ChangeItem = ChangeItem(remoteId: string, parentId: Option<string>, name: string, deleted: bool)

  datatype ConnectorError = Http(status: nat) | Auth | Throttled(retryAfterSecs: nat) | Other
}
