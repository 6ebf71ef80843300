/**
 * PageService of src/kopf/services/page.js: keeps the browser title in step
 * with the name of the cluster the console is connected to, and remembers
 * that name so that an unchanged name leaves the title alone.
 */
module PageTitle {
  import opened Wrappers

  const NO_CONNECTION := "kopf - no connection"

  /** The title shown while connected to the cluster called `name`. */
  function ClusterTitle(name: string): string {
    "kopf[" + name + "]"
  }

  /** JavaScript truthiness of a name that may be `undefined`: the empty string is falsy. */
  predicate Truthy(name: Option<string>) {
    name.Some? && name.value != ""
  }

  /** The remembered cluster name and the page title (`$rootScope.title`). */
  datatype TitleState = TitleState(clusterName: Option<string>, title: Option<string>)

  /** The state after `setPageTitle(name)`. */
  function Retitled(state: TitleState, name: Option<string>): (r: TitleState)
    ensures r.clusterName == name
    ensures name == state.clusterName ==> r == state
    ensures name != state.clusterName && Truthy(name) ==> r.title == Some(ClusterTitle(name.value))
    ensures name != state.clusterName && !Truthy(name) ==> r.title == Some(NO_CONNECTION)
  {
    if name == state.clusterName then state
    else if Truthy(name) then TitleState(name, Some(ClusterTitle(name.value)))
    else TitleState(name, Some(NO_CONNECTION))
  }

  /** Setting the same name twice has the effect of setting it once. */
  lemma RetitledIdempotent(state: TitleState, name: Option<string>)
    ensures Retitled(Retitled(state, name), name) == Retitled(state, name)
  {
  }

  /** Whatever happened before, the title after a change of name depends on that name alone. */
  lemma TitleDeterminedByName(s1: TitleState, s2: TitleState, name: Option<string>)
    requires name != s1.clusterName && name != s2.clusterName
    ensures Retitled(s1, name) == Retitled(s2, name)
  {
  }

  /** Losing the connection and then connecting again to the same cluster restores its title. */
  lemma ReconnectRestoresTitle(state: TitleState, name: string)
    requires name != ""
    ensures Retitled(Retitled(state, None), Some(name)).title == Some(ClusterTitle(name))
  {
  }

  /** The part of the cluster snapshot the title watcher reads. */
  datatype Cluster = Cluster(name: string)

  /** The argument the watcher passes: `cluster ? cluster.name : undefined`. */
  function WatchedName(cluster: Option<Cluster>): (name: Option<string>)
    ensures cluster.None? ==> name.None?
    ensures cluster.Some? ==> name == Some(cluster.value.name)
  {
    if cluster.Some? then Some(cluster.value.name) else None
  }

  class PageService {
    var clusterName: Option<string>
    /** `$rootScope.title`, which the service shares with the page. */
    var title: Option<string>

    /** The service starts with no cluster name; the title is whatever the page had. */
    constructor (title: Option<string>)
      ensures clusterName.None? && this.title == title
    {
      clusterName := None;
      this.title := title;
    }

    function State(): TitleState
      reads this
    {
      TitleState(clusterName, title)
    }

    method SetPageTitle(name: Option<string>)
      modifies this
      ensures State() == Retitled(old(State()), name)
    {
      if name != clusterName {
        if Truthy(name) {
          title := Some(ClusterTitle(name.value));
        } else {
          title := Some(NO_CONNECTION);
        }
        clusterName := name;
      }
    }

    /** The `$watch` listener on the current cluster. */
    method OnClusterChange(cluster: Option<Cluster>)
      modifies this
      ensures State() == Retitled(old(State()), WatchedName(cluster))
    {
      SetPageTitle(if cluster.Some? then Some(cluster.value.name) else None);
    }
  }
}
