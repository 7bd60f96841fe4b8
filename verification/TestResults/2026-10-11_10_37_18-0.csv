TestResult.DisplayName,TestResult.Outcome,TestResult.Duration,TestResult.ResourceCount,RandomSeed
FrontendTypes.TypeScope.RedirectMerged (correctness),Passed,00:00:00.8364044,1315576,3
FrontendTypes.TypeScope.RedirectMerged (well-formedness),Passed,00:00:00.3473019,181264,3
