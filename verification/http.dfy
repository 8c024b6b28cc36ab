/** What a handler sends back: a status code and a body. */
module Http {
  import opened Common
  import RecipeModel

  datatype Body =
    | Empty
    | Error(message: string)
    | SaveFailed(error: SaveError)
    | UserOut(user: map<string, Value>)
    | UserAndToken(user: map<string, Value>, token: string)
    | RecipeOut(id: Id, recipe: RecipeModel.Recipe)
    | RecipeList(recipes: map<Id, RecipeModel.Recipe>)

  datatype Response = Response(status: int, body: Body)

  /** The one answer the auth guard gives, whatever the cause of failure. */
  const Unauthorized: Response := Response(401, Error("Please authenticate."))

  /** The answer to a body naming a key outside a route's whitelist. */
  const InvalidUpdates: Response := Response(400, Error("Invalid updates."))
}
