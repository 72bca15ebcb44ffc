/** A vertex of the deployment graph (internal/dependency/node.go): a project,
    a site or a site component. Go's three node structs share one class here,
    told apart by `typ`; the site's and the site component's payloads are
    fields of the same class. */
module DependencyNode {

  datatype Type = ProjectType | SiteType | SiteComponentType

  /** The deployment granularity a node resolved to. */
  datatype DeploymentType = DeploymentProject | DeploymentSite | DeploymentSiteComponent

  /** The resolved configuration of one site component, as reduction folds it
      into the site that absorbs the component. Only its name is observed. */
  datatype SiteComponentConfig = SiteComponentConfig(name: string)

  class Node {
    const path: string
    const identifier: string
    const typ: Type
    /** Non-owning back-reference; null for the project node. */
    const parent: Node?
    const deploymentType: DeploymentType
    /** The payload of a site-component node. */
    const config: SiteComponentConfig
    var tainted: bool
    /** The payload of a site node: configurations absorbed during reduction. */
    var nestedConfigs: seq<SiteComponentConfig>

    constructor (path: string, identifier: string, typ: Type, parent: Node?,
                 deploymentType: DeploymentType, config: SiteComponentConfig)
      ensures this.path == path && this.identifier == identifier && this.typ == typ
      ensures this.parent == parent && this.deploymentType == deploymentType
      ensures this.config == config
      ensures !tainted && nestedConfigs == []
    {
      this.path := path;
      this.identifier := identifier;
      this.typ := typ;
      this.parent := parent;
      this.deploymentType := deploymentType;
      this.config := config;
      tainted := false;
      nestedConfigs := [];
    }

    /** Whether the node is a deployable unit of its own. */
    predicate Independent() {
      if typ == ProjectType || typ == SiteType then true
      else if typ == SiteComponentType && deploymentType == DeploymentSiteComponent then true
      else false
    }

    method SetTainted(tainted: bool)
      modifies this`tainted
      ensures Tainted() == tainted
      ensures nestedConfigs == old(nestedConfigs)
    {
      this.tainted := tainted;
    }

    function Tainted(): bool
      reads this`tainted
    {
      tainted
    }
  }

  /** Projects and sites are independent; a site component is independent
      exactly when its granularity is per component; nothing else is. */
  lemma IndependentCases(n: Node)
    ensures n.typ == ProjectType ==> n.Independent()
    ensures n.typ == SiteType ==> n.Independent()
    ensures n.typ == SiteComponentType ==>
              (n.Independent() <==> n.deploymentType == DeploymentSiteComponent)
  {
  }

  /** Only site components can be absorbed by reduction. */
  lemma NotIndependentIsSiteComponent(n: Node)
    requires !n.Independent()
    ensures n.typ == SiteComponentType && n.deploymentType != DeploymentSiteComponent
  {
  }
}
