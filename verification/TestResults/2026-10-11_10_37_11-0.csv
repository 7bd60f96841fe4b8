TestResult.DisplayName,TestResult.Outcome,TestResult.Duration,TestResult.ResourceCount,RandomSeed
FrontendTypes.TypeScope.RedirectMerged (correctness),Passed,00:00:01.3331324,2107798,2
FrontendTypes.TypeScope.RedirectMerged (well-formedness),Passed,00:00:00.4058230,175898,2
